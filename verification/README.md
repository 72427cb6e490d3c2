# nginx core, modelled and proved

The repository carries the sources of nginx 1.23.3 under `sysadmin/nginx/nginx-1.23.3`. This project models
the core algorithms of its `src/core` and proves what they are for. `dafny verify dfyconfig.toml` checks it.

- **Names to values** (`HashTable`, `WildcardHash`, `DnsNames`, `HashKeys`, `NameOrder`, `CombinedHash`,
  `NameOffers`, `ServerNames`, `Clash`): server names and wildcards are collected, checked for conflicts, sorted,
  packed into byte-addressed hash tables and tries with tagged values, and looked up. `ServerNames.Serve` goes all
  the way from `ngx_hash_add_key` to `ngx_hash_find_combined` and is stated on the bytes of the names: first come,
  first served, every host gets the exact, the longest suffix, or the longest prefix name.
- **Reload** (`Listeners`, `Zones`, `Reload`): `ngx_init_cycle` as a transaction over sockets and shared
  memory, and conservation over every run of reloads.
- **Configuration text** (`ConfScan`, `ConfGrammar`, `ConfFile`, `ConfText`): the tokenizer over its sliding buffer
  equals a scan of the whole file, and what a scan returns is stated on the language of blanks, comments and words.
- **Addresses** (`Inet`, `Inet6`, `Inet6Print`, `Inet6Standard`, `Cidr`): parser and printer of IPv6 text, the
  round trip with its exact exceptions, the text forms of RFC 4291 and where the parser departs from them,
  network prefixes bit by bit.
- **Connections** (`Queue`, `PoolSpec`, `Connections`): free list, reusable queue, file table and drain under
  arbitrary handlers, against a specification on values, and the destruction of old cycles.
- **Digests** (`Crc32`, `Md5Block`, `Md5`, `Md5Vectors`): tables, unrolled steps and incremental forms against the
  definitions, and those against known values.
- **Linked structures** (`LogList`, `Modules`, `Chains`): sorted logs, module order and indices, buffer chains.

`Bytes` holds what they share. Byte strings are sequences of numbers below 256, pointers are numbers with 0 for
NULL, and machine words are bounded explicitly where they could wrap. Structures that the C code updates in
place are arrays, classes or linked nodes, and its loops are methods; each is proved against a function of its
inputs, and the theorems are about those functions. System calls and allocations are requests that `System` grants
or refuses; what fails for want of one says which requests may have been refused.

Where the code differs from what one would expect of it:

- 255.255.255.255 never parses, since its value is that of `INADDR_NONE`; so the two IPv6 addresses printed
  with this tail are not read back (`Inet6Print.PrintThenParse`).
- The IPv6 parser refuses "1:2:3:4:5:6:7::" and takes ":1:2:3:4:5:6:7:8", "::1:" and dotted ends with an empty
  number; it refuses a dotted end that begins with more than four digits (`Inet6Standard.SevenThenGap`,
  `ColonInFront`, `ColonBehind`, `EmptyNumber`, `LongNumber`; exactly where it departs from section 2.2 of RFC 4291:
  `Inet6Standard.AgreesIff`). A number of a dotted end is taken here, as that section puts it, for
  a decimal value of any length.
- A ".x" refused because "*.x" is present has claimed its name, so later keys can be refused without a conflict
  (`HashKeys.RejectionMayBeSpurious`; exactly when: `HashKeys.RejectedIff` with `HashKeys.OrphansAreStranded`).
  An exact key with a NUL in it can be mistaken for another (`HashKeys.MistakenForAnother`,
  `HashKeys.MistakenHasNul`).
- A zone whose `noreuse` differs from that of the equal old zone leaks its segment or loses it
  (`Zones.CommitIsExactIff`).
- The comparison of the wildcards puts the dot lowest only among bytes above the space; exactly when it is the
  order that the tries need is `DnsNames.DnsOrder`, and failing examples are `DnsNames.ClashBreaksGroups` and, up to
  the wrong answer of a lookup, `Clash.ClashMisleads`.
- `ngx_hash_init` divides by zero when no key is present and the bucket size is below three pointers
  (`HashTable.DividesByZeroIff`).
- A quoted word counts towards the 4096 bytes until the next token starts, so a word can be "too long" because
  of its closing quote (`ConfText.WrittenIsRead`). A comment counts from its '#' on
  (`ConfText.CommentTooLongIff`).
- `ngx_count_modules` returns 0 when the old cycle holds a module of the type that has no index and is not loaded
  any more (`Modules.CountModules`, `Modules.CountWraps`).
- `ngx_chain_coalesce_file` also returns a buffer that a page boundary completes (`Chains.CompletedByPage`;
  exactly when: `Chains.CoveredIff`).

## Model

| member | source | states |
|---|---|---|
| HashTable.Init | sysadmin/nginx/nginx-1.23.3/src/core/ngx_hash.c:250-486 | A hash is built if and only if the size checks pass and no allocation fails; its size is the first one tried in which every bucket fits (or the largest); it represents exactly the present keys, in buckets that do not overlap and lie in the allocated chunk; it is also said exactly when the division by zero is reached |
| HashTable.DividesByZeroIff | sysadmin/nginx/nginx-1.23.3/src/core/ngx_hash.c:291-299 | The division by zero is reached if and only if there is no present key and the bucket size is between a pointer and less than three |
| HashTable.Find | sysadmin/nginx/nginx-1.23.3/src/core/ngx_hash.c:12-49 | Looking a name up in the bytes of a table gives the value of the first stored entry with that name, and NULL when there is none |
| HashTable.LookupIsMap | sysadmin/nginx/nginx-1.23.3/src/core/ngx_hash.c:12-49 | For distinct names the lookup is the map from names to values |
| HashTable.LookupInBucket | sysadmin/nginx/nginx-1.23.3/src/core/ngx_hash.c:23-48 | Searching only the bucket of the name's hash finds what a search of all keys would |
| HashTable.ReaderStep | sysadmin/nginx/nginx-1.23.3/src/core/ngx_hash.c:43-45 | The reader's aligned step from an element is the writer's element size, so it meets the next element or the terminator |
| HashTable.Tally | sysadmin/nginx/nginx-1.23.3/src/core/ngx_hash.c:346-370 | The 16-bit counters hold the bytes of every bucket without wrapping; the loop stops exactly when some bucket would exceed the limit |
| HashTable.ChooseSize | sysadmin/nginx/nginx-1.23.3/src/core/ngx_hash.c:296-337 | The search returns the first size in which all buckets stay within the configured bucket size, or the maximal size |
| HashTable.FirstFitIsFirst | sysadmin/nginx/nginx-1.23.3/src/core/ngx_hash.c:296-344 | No smaller size tried would have fit; when none fits, the largest size is used and the bucket size is ignored |
| HashTable.AlignSizes | sysadmin/nginx/nginx-1.23.3/src/core/ngx_hash.c:372-382 | Each occupied bucket's size is rounded up to the cache line and the total is their sum |
| HashTable.PlaceBuckets | sysadmin/nginx/nginx-1.23.3/src/core/ngx_hash.c:411-418 | Occupied buckets get consecutive addresses, empty ones NULL |
| HashTable.PlacedGeometry | sysadmin/nginx/nginx-1.23.3/src/core/ngx_hash.c:403-418 | The placed buckets lie inside the chunk, have room for their elements and a terminator, and are pairwise disjoint |
| HashTable.Fill | sysadmin/nginx/nginx-1.23.3/src/core/ngx_hash.c:420-438 | Writing all keys leaves in every bucket exactly its entries, in order, byte for byte; the cursors end behind the last element |
| HashTable.Terminate | sysadmin/nginx/nginx-1.23.3/src/core/ngx_hash.c:440-448 | Every occupied bucket ends with a NULL element inside its own space, and no other byte changes |
| HashTable.TableIsBuilt | sysadmin/nginx/nginx-1.23.3/src/core/ngx_hash.c:420-453 | Filled and terminated buckets represent the keys |
| HashTable.LaidAt | sysadmin/nginx/nginx-1.23.3/src/core/ngx_hash.c:248-249 | Element k of a bucket lies at the sum of the sizes before it |
| HashTable.CheckNames | sysadmin/nginx/nginx-1.23.3/src/core/ngx_hash.c:276-289 | The check passes exactly when each name fits a bucket of the configured size |
| HashTable.AlignedToLine | sysadmin/nginx/nginx-1.23.3/src/core/ngx_hash.c:403-409 | An address aligned to a cache line is aligned for elements |
| HashTable.EltSizeIs | sysadmin/nginx/nginx-1.23.3/src/core/ngx_hash.c:248-249 | An element takes a pointer, a 16-bit length and the name, rounded up to a multiple of eight bytes |
| HashTable.HashGrows | sysadmin/nginx/nginx-1.23.3/src/core/ngx_hash.c:634-646 | The hash of a name has its bytes as digits in base 31, modulo 2^64 |
| HashTable.BuildableIs | sysadmin/nginx/nginx-1.23.3/src/core/ngx_hash.c:258-370 | The size checks in numbers: each name and a terminator fit a bucket, and with the chosen number of buckets none needs more than 65536 bytes less a cache line |
| HashTable.ChosenIs | sysadmin/nginx/nginx-1.23.3/src/core/ngx_hash.c:296-344 | The search for the number of buckets starts from the number of keys and the bucket size, or 1000 below a large maximum that is dense with keys |
| Bytes.LittleEndianRoundTrip | sysadmin/nginx/nginx-1.23.3/src/core/ngx_hash.c:432-433 | A pointer or length written in n bytes is read back |
| Bytes.Capitals | sysadmin/nginx/nginx-1.23.3/src/core/ngx_string.h:47-47 | 'A' to 'Z' become 'a' to 'z', and every other byte stays |
| WildcardHash.Build | sysadmin/nginx/nginx-1.23.3/src/core/ngx_hash.c:489-631 | For every sorted set of patterns without conflict, a successful build is a trie of exactly these patterns; what was built before stays; for names that fit, it fails only when the system refused an allocation, or without any name as `HashTable.Init` does; it terminates by the total key length. Of names that are not sorted it stores, for each label, the first run |
| WildcardHash.FindHead | sysadmin/nginx/nginx-1.23.3/src/core/ngx_hash.c:52-143 | In such a trie the lookup returns the value of the longest matching suffix pattern, else the value of the node it started from |
| WildcardHash.FindTail | sysadmin/nginx/nginx-1.23.3/src/core/ngx_hash.c:146-207 | In the trie of the prefix patterns the lookup returns the value of the longest "name.*" that matches the host, else the value of the node it started from |
| WildcardHash.LongestUnique | sysadmin/nginx/nginx-1.23.3/src/core/ngx_hash.c:52-143 | The longest matching pattern determines the value |
| WildcardHash.CollectGroup | sysadmin/nginx/nginx-1.23.3/src/core/ngx_hash.c:570-596 | The inner loop gathers exactly the run of names below one label, with that label removed |
| WildcardHash.BuildGroup | sysadmin/nginx/nginx-1.23.3/src/core/ngx_hash.c:514-621 | One turn of the outer loop stores the label with its own value, its subtrie, or both |
| WildcardHash.GroupValue | sysadmin/nginx/nginx-1.23.3/src/core/ngx_hash.c:598-620 | The stored value carries the tag for its label: data, data for subdomains, a node, or a node of a dotted name |
| WildcardHash.GroupsContiguous | sysadmin/nginx/nginx-1.23.3/src/core/ngx_hash.c:570-596 | In the sort order all names with one first label stand together, so one pass finds them |
| WildcardHash.RunIsGroup | sysadmin/nginx/nginx-1.23.3/src/core/ngx_hash.c:570-596 | In sorted names the first run of a label has all its names |
| WildcardHash.TableIsRep | sysadmin/nginx/nginx-1.23.3/src/core/ngx_hash.c:514-630 | So what is stored for the first runs is, for sorted names, the trie of all |
| WildcardHash.MatchUnder | sysadmin/nginx/nginx-1.23.3/src/core/ngx_hash.c:52-143 | A pattern under a label matches a host exactly when its rest matches the rest of the host |
| WildcardHash.LongestBelow | sysadmin/nginx/nginx-1.23.3/src/core/ngx_hash.c:116-124 | A match below the label's node is longer than any other |
| WildcardHash.LongestOwn | sysadmin/nginx/nginx-1.23.3/src/core/ngx_hash.c:101-140 | Where nothing below matches, the label's own pattern is the longest match |
| WildcardHash.LongestSingle | sysadmin/nginx/nginx-1.23.3/src/core/ngx_hash.c:103-134 | For a host of one label the longest match, if any, is that label itself as a ".name" pattern |
| WildcardHash.LongestNoLabel | sysadmin/nginx/nginx-1.23.3/src/core/ngx_hash.c:82-142 | When the host's first label (reversed) is not stored, no pattern of the trie matches the host |
| WildcardHash.TagMeans | sysadmin/nginx/nginx-1.23.3/src/core/ngx_hash.c:88-139 | What the two low bits of a stored value say about the label |
| WildcardHash.RepExtends | sysadmin/nginx/nginx-1.23.3/src/core/ngx_hash.c:598-616 | A trie stays what it is when more nodes are allocated |
| WildcardHash.RootIsRep | sysadmin/nginx/nginx-1.23.3/src/core/ngx_hash.c:623-630 | The root node of a build represents the patterns |
| WildcardHash.LightIsBuildable | sysadmin/nginx/nginx-1.23.3/src/core/ngx_hash.c:623-630 | The labels of names that fit can always be hashed: only memory can fail |
| WildcardHash.KeyOf | sysadmin/nginx/nginx-1.23.3/src/core/ngx_hash.c:634-646 | The key of a label is its polynomial hash in 64 bits |
| DnsNames.RevTwice | sysadmin/nginx/nginx-1.23.3/src/core/ngx_hash.c:907-939 | Reversing the labels twice gives the name back |
| DnsNames.RevAppend | sysadmin/nginx/nginx-1.23.3/src/core/ngx_hash.c:907-939 | How reversal acts on two joined names |
| DnsNames.RevFrontIsRev | sysadmin/nginx/nginx-1.23.3/src/core/ngx_hash.c:907-939 | Reversal from the front and from the end agree |
| DnsNames.BelowIsPrefix | sysadmin/nginx/nginx-1.23.3/src/core/ngx_hash.c:907-939 | Being a subdomain is being an extension of the reversed name |
| DnsNames.DnsOrder | sysadmin/nginx/nginx-1.23.3/src/core/ngx_string.c:895-925 | For any two strings, the comparison of the wildcards agrees with the order the tries are built from, equality included, if and only if the lower-cased strings do not first differ in a dot against a byte up to the space |
| DnsNames.ClashBreaksGroups | sysadmin/nginx/nginx-1.23.3/src/core/ngx_string.c:895-925 | Three names, one with a control character, that the comparison puts in an order in which the names of one label do not stand together |
| HashKeys.KeysArrays.AddKey | sysadmin/nginx/nginx-1.23.3/src/core/ngx_hash.c:737-1013 | For every key: with wildcards allowed it is declined exactly when it is not the text "n", ".n", "*.n" or "n.*" of a pattern, and then nothing changes; otherwise the arrays and conflict tables change exactly as the record of accepted keys says for the pattern whose text it is, in lower case unless an exact key is read-only; an error if and only if the system refused an allocation of this call |
| HashKeys.ClassifyIff | sysadmin/nginx/nginx-1.23.3/src/core/ngx_hash.c:757-895 | A key is recognised as a pattern if and only if it is the text of the pattern, with '*' and '.' as the bytes 42 and 46, and has no NUL, no two dots in a row and no second star |
| HashKeys.SameText | sysadmin/nginx/nginx-1.23.3/src/core/ngx_hash.c:757-895 | Different patterns have different texts |
| NameOffers.AcceptedIff | sysadmin/nginx/nginx-1.23.3/src/core/ngx_hash.c:803-998 | Of the names in turn exactly those are accepted that no earlier text stands against: n loses against n and .n, .n against n, .n and *.n, *.n against *.n and an accepted .n, n.* against n.* |
| NameOffers.CollectedReflects | sysadmin/nginx/nginx-1.23.3/src/core/ngx_hash.c:737-1013 | After every number of names the record holds exactly the accepted ones and the names claimed so far |
| NameOffers.FitsIff | sysadmin/nginx/nginx-1.23.3/src/core/ngx_hash.c:52-207 | A pattern matches exactly the hosts its text is for: *.n those that end with .n, .n also n itself, n.* those that begin with n and a dot |
| NameOffers.ServedIs | sysadmin/nginx/nginx-1.23.3/src/core/ngx_hash.c:210-245 | What the accepted patterns resolve a host to is the server of the accepted text that is the host, else of the longest *.n or .n for it, else of the longest n.* for it, else 0 |
| NameOffers.StarAlone | sysadmin/nginx/nginx-1.23.3/src/core/ngx_hash.c:82-143 | *.n alone answers exactly the hosts that end with .n, and so not n |
| NameOffers.DotAlone | sysadmin/nginx/nginx-1.23.3/src/core/ngx_hash.c:82-143 | .n alone answers n and exactly the hosts that end with .n |
| HashKeys.KeysArrays.AddExact | sysadmin/nginx/nginx-1.23.3/src/core/ngx_hash.c:800-853 | An exact key is refused exactly when a claimed name is found equal in its bucket, else recorded in the bucket of its own hash |
| HashKeys.KeysArrays.AddHead | sysadmin/nginx/nginx-1.23.3/src/core/ngx_hash.c:856-998 | "*.x" and ".x" are refused or recorded with their labels reversed; a ".x" refused because of "*.x" has claimed its name |
| HashKeys.KeysArrays.AddTail | sysadmin/nginx/nginx-1.23.3/src/core/ngx_hash.c:944-1010 | "x.*" is refused or recorded without its tail |
| HashKeys.CheckForm | sysadmin/nginx/nginx-1.23.3/src/core/ngx_hash.c:757-798 | The scan accepts exactly the well-formed keys and counts the stars |
| HashKeys.ReverseKey | sysadmin/nginx/nginx-1.23.3/src/core/ngx_hash.c:907-939 | The copying loop writes the reversed labels |
| HashKeys.RecordedIsSound | sysadmin/nginx/nginx-1.23.3/src/core/ngx_hash.c:757-856 | The recognised bases are not empty, have no leading or trailing dot, and are in lower case |
| HashKeys.StepKeepsInv | sysadmin/nginx/nginx-1.23.3/src/core/ngx_hash.c:737-1013 | Every call, refused and failed ones included, keeps the accepted keys free of conflicts |
| HashKeys.RunIsConflictFree | sysadmin/nginx/nginx-1.23.3/src/core/ngx_hash.c:737-1013 | Over every run of calls the accepted keys are pairwise free of conflicts |
| HashKeys.RejectedIff | sysadmin/nginx/nginx-1.23.3/src/core/ngx_hash.c:803-998 | A key is refused if and only if it conflicts with an accepted key, needs a name that no accepted key has but that was claimed, or is mistaken for another name |
| HashKeys.OrphansAreStranded | sysadmin/nginx/nginx-1.23.3/src/core/ngx_hash.c:860-961 | Over every run, the names claimed without an accepted key are exactly those that a call claimed before it refused its key: a ".x" because of "*.x", or for want of memory |
| HashKeys.MistakenHasNul | sysadmin/nginx/nginx-1.23.3/src/core/ngx_hash.c:813-826 | One name is mistaken for another only by an exact key with a NUL byte in it, where the comparison stops |
| HashKeys.MistakenForAnother | sysadmin/nginx/nginx-1.23.3/src/core/ngx_hash.c:813-826 | Two different names with a NUL byte of which the second is refused |
| HashKeys.RejectionMayBeSpurious | sysadmin/nginx/nginx-1.23.3/src/core/ngx_hash.c:870-892 | A concrete run in which a key without any conflict is refused |
| HashKeys.StepKeepsTight | sysadmin/nginx/nginx-1.23.3/src/core/ngx_hash.c:961-998 | Without memory failures the wildcard bases are those of accepted keys |
| CombinedHash.FindCombined | sysadmin/nginx/nginx-1.23.3/src/core/ngx_hash.c:210-245 | What was built from the accepted keys resolves every host: its exact name's value, else that of the longest matching suffix pattern, else that of the longest matching prefix pattern, else NULL |
| CombinedHash.ResolvesUnique | sysadmin/nginx/nginx-1.23.3/src/core/ngx_hash.c:210-245 | Two answers that both satisfy the resolution rule for a host are equal, so the rule determines the lookup |
| CombinedHash.BuildCombined | sysadmin/nginx/nginx-1.23.3/src/http/ngx_http.c:1526-1575 | Building the exact hash and both tries from the collected keys, sorted by the comparison, establishes what the lookup needs; if the keys fit, it fails only when the system refused an allocation of this build |
| CombinedHash.HeadBest | sysadmin/nginx/nginx-1.23.3/src/core/ngx_hash.c:52-143 | The longest match among the reversed keys is the best suffix pattern |
| CombinedHash.TailBest | sysadmin/nginx/nginx-1.23.3/src/core/ngx_hash.c:146-207 | The longest match among the tail keys is the best prefix pattern |
| CombinedHash.HeadsGood | sysadmin/nginx/nginx-1.23.3/src/core/ngx_hash.c:907-1010 | The reversed keys of accepted wildcards that do not clash, sorted by the comparison, are in the order and without the conflicts that the trie builder assumes |
| CombinedHash.TailsGood | sysadmin/nginx/nginx-1.23.3/src/core/ngx_hash.c:944-1010 | The same for the tail keys, which moreover do not end with a dot |
| CombinedHash.HeadMatch | sysadmin/nginx/nginx-1.23.3/src/core/ngx_hash.c:907-939 | A reversed key matches a reversed host exactly when the pattern matches the host |
| CombinedHash.ExactLookup | sysadmin/nginx/nginx-1.23.3/src/core/ngx_hash.c:12-49 | The lookup among the exact keys finds the rule of the name |
| CombinedHash.KeysDistinct | sysadmin/nginx/nginx-1.23.3/src/core/ngx_hash.c:907-1010 | The trie keys of accepted wildcards of one kind are pairwise different |
| CombinedHash.PrintableIsOrderly | sysadmin/nginx/nginx-1.23.3/src/core/ngx_string.c:895-925 | Wildcards without control characters and spaces never clash |
| NameOrder.SortedKeys | sysadmin/nginx/nginx-1.23.3/src/http/ngx_http.c:1650-1659 | Different keys that do not clash, sorted by the comparison, are strictly sorted in the order that the tries need |
| NameOrder.SortNamesSorts | sysadmin/nginx/nginx-1.23.3/src/http/ngx_http.c:1543-1562 | Sorting by the comparison gives a permutation in its order, although the comparison is an order only on keys that do not clash |
| ServerNames.CollectKeys | sysadmin/nginx/nginx-1.23.3/src/http/ngx_http.c:1486-1524 | Adding the names one by one ends in an error if and only if the system refused an allocation, is declined only for a malformed name, and otherwise leaves the record of all names with conflicting ones ignored |
| ServerNames.CollectedGood | sysadmin/nginx/nginx-1.23.3/src/core/ngx_hash.c:737-1013 | After every run the accepted names are free of conflicts, in lower case, and carry the given servers |
| ServerNames.Build | sysadmin/nginx/nginx-1.23.3/src/http/ngx_http.c:1461-1582 | From the names of the configuration to a combined hash for the accepted ones; it succeeds whenever the names are well formed and fit and the system grants what it is asked for |
| ServerNames.Serve | sysadmin/nginx/nginx-1.23.3/src/http/ngx_http.c:1461-1582 | From the texts of the configuration through collecting, sorting, building and looking up, in terms of their bytes: first come, first served, every host is answered with the server of the name that it is, else of the longest *.n or .n it ends with, else of the longest n.* it begins with, else 0; this succeeds whenever the names are well formed and fit and the system grants what it is asked for, and is declined only for a name that is no such text |
| ServerNames.PrintableOffers | sysadmin/nginx/nginx-1.23.3/src/core/ngx_string.c:895-925 | For names without control characters and spaces that needs no further condition |
| Clash.ClashMisleads | sysadmin/nginx/nginx-1.23.3/src/core/ngx_hash.c:52-143 | Three wildcards, one with a control character, that the comparison puts in an order in which a label comes twice: the trie is built, and a host gets the server of a shorter pattern than the longest that matches |
| Reload.InitCycle | sysadmin/nginx/nginx-1.23.3/src/core/ngx_cycle.c:413-935 | A reload is a transaction, in terms of the fields: on failure, which has a cause within this reload, sockets and segments are as before and none of the old ones was closed or freed; on success each new listener has the descriptor of the first old one of its address and kind that is left, or a new one, what is open are the descriptors of the new cycle, and each other old one was closed once; a new zone lies in the segment of an old one exactly when name, tag and size are the same and it does not refuse reuse, and else in one that was not mapped before; freed, once each, are exactly the old segments that refuse reuse or whose name, tag and size no new zone has; what is mapped are the segments of the new cycle if and only if equal zones agree on noreuse |
| Reload.SocketsTaken | sysadmin/nginx/nginx-1.23.3/src/core/ngx_cycle.c:503-560 | Which old listener a new one has taken, by address and kind: the first that no earlier new listener took, none only if all are taken |
| Reload.Reloads | sysadmin/nginx/nginx-1.23.3/src/os/unix/ngx_process_cycle.c:313-324 | Over every run of reloads, successful or failed, the sockets and segments in use are exactly those of the running cycle |
| Reload.PrepareSockets | sysadmin/nginx/nginx-1.23.3/src/core/ngx_cycle.c:503-624 | After inheriting and opening, each new listener has an old descriptor that no other claims, or a new one |
| Reload.Rollback | sysadmin/nginx/nginx-1.23.3/src/core/ngx_cycle.c:856-935 | Rollback frees and closes exactly what this reload added |
| Reload.Commit | sysadmin/nginx/nginx-1.23.3/src/core/ngx_cycle.c:628-737 | Commit frees and closes exactly what the new cycle does not use, once each |
| Listeners.Inherit | sysadmin/nginx/nginx-1.23.3/src/core/ngx_cycle.c:503-560 | Each old listener is claimed by at most one new listener, which gets its descriptor; a new listener takes the first equal old one that is left |
| Listeners.OpenSockets | sysadmin/nginx/nginx-1.23.3/src/core/ngx_connection.c:406-712 | Opening leaves every listener open, or reports failure because the system refused a call: one attempt failed, or an address was in use in five rounds; no descriptor is leaked |
| Listeners.OpenOne | sysadmin/nginx/nginx-1.23.3/src/core/ngx_connection.c:440-690 | A socket is created, prepared, bound and, for a stream, listening; one that fails half-way is closed before the error is reported |
| Listeners.CloseSockets | sysadmin/nginx/nginx-1.23.3/src/core/ngx_cycle.c:705-737 | The closing loops close every picked socket once, and no other |
| Listeners.CommitIsExact | sysadmin/nginx/nginx-1.23.3/src/core/ngx_cycle.c:705-737 | After commit exactly the sockets of the new cycle are open; closed are exactly the old ones it did not inherit |
| Listeners.RollbackIsExact | sysadmin/nginx/nginx-1.23.3/src/core/ngx_cycle.c:924-935 | After rollback exactly the old sockets are open, and no inherited one was closed |
| Listeners.MatchedOpening | sysadmin/nginx/nginx-1.23.3/src/core/ngx_cycle.c:503-560 | Inherited descriptors are those of the old cycle, the rest is still to be opened |
| Zones.SharedMemoryAdd | sysadmin/nginx/nginx-1.23.3/src/core/ngx_cycle.c:1291-1362 | A zone is refused exactly for another tag or size or when a new one cannot be pushed; names stay unique |
| Zones.InitZones | sysadmin/nginx/nginx-1.23.3/src/core/ngx_cycle.c:413-500 | A zone lies in the segment of an old one exactly when name, tag and size are the same and it does not refuse reuse, else in one that was not mapped before; this is given up only for a zone without size, a failed callback, or a mapping that the system refused |
| Zones.AddressIff | sysadmin/nginx/nginx-1.23.3/src/core/ngx_cycle.c:437-470 | The address of a new zone is that of an old one exactly when name, tag and size are the same and it does not refuse reuse |
| Zones.FreedIff | sysadmin/nginx/nginx-1.23.3/src/core/ngx_cycle.c:643-702 | Commit frees the address of an old zone exactly when it refuses reuse or no new zone has its name, tag and size |
| Zones.RollbackZones | sysadmin/nginx/nginx-1.23.3/src/core/ngx_cycle.c:856-917 | Exactly the new segments are freed, each once |
| Zones.CommitZones | sysadmin/nginx/nginx-1.23.3/src/core/ngx_cycle.c:643-702 | The final pass frees each old segment that does not stay, once, and nothing else |
| Zones.AgreementSuffices | sysadmin/nginx/nginx-1.23.3/src/core/ngx_cycle.c:643-702 | When equal zones agree on noreuse, the segments left after commit are exactly those of the new cycle, each owned by one zone |
| Zones.CommitIsExactIff | sysadmin/nginx/nginx-1.23.3/src/core/ngx_cycle.c:643-702 | The segments left after commit are exactly those of the new cycle if and only if equal zones of both cycles agree on noreuse |
| Zones.LeakedSegment | sysadmin/nginx/nginx-1.23.3/src/core/ngx_cycle.c:466-466 | A zone that starts to refuse reuse leaves the old segment mapped and unused |
| Zones.LostSegment | sysadmin/nginx/nginx-1.23.3/src/core/ngx_cycle.c:687-687 | A zone that stops to refuse reuse loses the segment it uses |
| ConfFile.Reader.ReadToken | sysadmin/nginx/nginx-1.23.3/src/core/ngx_conf_file.c:502-817 | For every file and every sequence of calls, unless the system refuses a read or an allocation of this call: whatever blanks, comments and bare, single- or double-quoted words are spelled from the position on, the call returns the values of the words, Ok for ";", a block start for "{", a block end for a lone "}", an error for a stray one of them, the end of the file without words, the line feeds counted and the position behind, wherever the 4096-byte buffer is refilled; or a token or comment fills the buffer |
| ConfFile.Reader.ScanToken | sysadmin/nginx/nginx-1.23.3/src/core/ngx_conf_file.c:502-817 | Return code, words, line and position are those of a scan of the whole file in one buffer |
| ConfGrammar.SpelledIsRead | sysadmin/nginx/nginx-1.23.3/src/core/ngx_conf_file.c:502-817 | The law of the tokenizer over its language, with literal bytes: blanks (9, 10, 13, 32), comments, bare and quoted words, '$' before '{' inside a word, what ends a call and what it returns, with any buffer size |
| ConfGrammar.EveryText | sysadmin/nginx/nginx-1.23.3/src/core/ngx_conf_file.c:502-817 | From every position every file is such a text, up to a byte that ends the call or to the end of the file, be it inside a word or a comment |
| ConfGrammar.ReadItems | sysadmin/nginx/nginx-1.23.3/src/core/ngx_conf_file.c:612-815 | The same from any place in a text |
| ConfGrammar.ReadUnits | sysadmin/nginx/nginx-1.23.3/src/core/ngx_conf_file.c:722-760 | The bytes of a word are passed over up to its end, or fill the buffer |
| ConfGrammar.UnescapeSpelled | sysadmin/nginx/nginx-1.23.3/src/core/ngx_conf_file.c:763-803 | A backslash with t, r or n is read as byte 9, 13 or 10, one with a quote or backslash as that byte, and before any other byte it stays |
| ConfFile.Reader.NeedChar | sysadmin/nginx/nginx-1.23.3/src/core/ngx_conf_file.c:533-611 | The refill changes nothing the scan sees; the end of the file and a token that fills the buffer end the call as the scan says |
| ConfFile.Reader.Refill | sysadmin/nginx/nginx-1.23.3/src/core/ngx_conf_file.c:579-605 | Moving the token down and reading on keeps the buffer a window of the file |
| ConfFile.Reader.ReadChar | sysadmin/nginx/nginx-1.23.3/src/core/ngx_conf_file.c:613-815 | One character is handled as the machine says |
| ConfFile.Reader.BetweenTokens | sysadmin/nginx/nginx-1.23.3/src/core/ngx_conf_file.c:658-720 | A character between tokens moves the reader as the machine of `ConfGrammar.SpelledIsRead` says, with the same return codes |
| ConfFile.Reader.InsideToken | sysadmin/nginx/nginx-1.23.3/src/core/ngx_conf_file.c:722-815 | A character inside a token is handled as the machine says: a word is unescaped and appended exactly when one ends |
| ConfFile.UnescapeWord | sysadmin/nginx/nginx-1.23.3/src/core/ngx_conf_file.c:763-803 | The loop stays inside token and allocation, writes the unescaped text and a NUL |
| ConfScan.LimitOnlyCuts | sysadmin/nginx/nginx-1.23.3/src/core/ngx_conf_file.c:555-577 | The buffer size only cuts scans short: unless the token is too long, the outcome is that of an unlimited scan |
| ConfScan.StepKeepsInv | sysadmin/nginx/nginx-1.23.3/src/core/ngx_conf_file.c:613-815 | Inside a token everything read is complete backslash pairs, but for one that waits |
| ConfScan.WordAdded | sysadmin/nginx/nginx-1.23.3/src/core/ngx_conf_file.c:760-803 | A word is added exactly when a token ends; it is the unescaped token, which consists of complete pairs |
| ConfScan.PairedAppend | sysadmin/nginx/nginx-1.23.3/src/core/ngx_conf_file.c:771-803 | Complete pairs in front do not affect what follows |
| ConfText.WrittenIsRead | sysadmin/nginx/nginx-1.23.3/src/core/ngx_conf_file.c:502-817 | A directive written with quoted, escaped words is read back as the same words wherever it stands in a file; with the buffer limit this holds if and only if each escaped word and the two characters behind it stay below 4096 bytes |
| ConfText.UnescapeEscape | sysadmin/nginx/nginx-1.23.3/src/core/ngx_conf_file.c:771-803 | Unescaping undoes escaping for every word |
| ConfText.ReadQuoted | sysadmin/nginx/nginx-1.23.3/src/core/ngx_conf_file.c:701-750 | A quoted word is read as the word, or is too long exactly when it does not fit |
| ConfText.CommentTooLongIff | sysadmin/nginx/nginx-1.23.3/src/core/ngx_conf_file.c:555-577 | Between tokens a comment is too long if and only if it fills the 4096 bytes, its '#' included; otherwise the call goes on in the next line |
| Inet.InetAddr | sysadmin/nginx/nginx-1.23.3/src/core/ngx_inet.c:19-59 | The result is the address that the four octets of the text denote, else INADDR_NONE; the two coincide for 255.255.255.255 |
| Inet.JoinFields | sysadmin/nginx/nginx-1.23.3/src/core/ngx_inet.c:29-53 | Splitting at a separator loses nothing and leaves fields without it |
| Inet.FieldsJoin | sysadmin/nginx/nginx-1.23.3/src/core/ngx_inet.c:29-53 | Joined fields are split into the same fields |
| Inet.DottedRoundTrip | sysadmin/nginx/nginx-1.23.3/src/core/ngx_inet.c:362-366 | A printed quad denotes the printed address, for every address |
| Inet.DottedText | sysadmin/nginx/nginx-1.23.3/src/core/ngx_inet.c:19-59 | Four decimal numbers below 256 with dots between them are read as bytes, the highest first |
| Inet.DecShortest | sysadmin/nginx/nginx-1.23.3/src/core/ngx_string.c:486-560 | Printed numbers are the digits '0' to '9' without a zero in front |
| Inet6.Inet6Addr | sysadmin/nginx/nginx-1.23.3/src/core/ngx_inet.c:64-177 | For every text: accepted if and only if it denotes an address; then all sixteen bytes are the words before "::", zeros, and the words after it; no write leaves the sixteen bytes |
| Inet6.HexLetters | sysadmin/nginx/nginx-1.23.3/src/core/ngx_inet.c:130-142 | '0' to '9' are 0 to 9, 'A' to 'F' and 'a' to 'f' are 10 to 15, and no other byte is a digit |
| Inet6.NetworkOrder | sysadmin/nginx/nginx-1.23.3/src/core/ngx_inet.c:148-149 | The high byte of each word comes first |
| Inet6.ReadGroups | sysadmin/nginx/nginx-1.23.3/src/core/ngx_inet.c:91-155 | The loop has stored all words but the last, or no text with this beginning denotes an address |
| Inet6.InsertZeros | sysadmin/nginx/nginx-1.23.3/src/core/ngx_inet.c:157-170 | The backward shift and the clearing insert exactly the missing zeros |
| Inet6.DottedTail | sysadmin/nginx/nginx-1.23.3/src/core/ngx_inet.c:115-132 | A dotted tail is two words when it is a quad other than 255.255.255.255 and nothing follows, else the text is rejected |
| Inet6.HopelessField | sysadmin/nginx/nginx-1.23.3/src/core/ngx_inet.c:134-152 | A field that can become neither a group nor a dotted tail makes every continuation of the text fail |
| Inet6.WrongFields | sysadmin/nginx/nginx-1.23.3/src/core/ngx_inet.c:94-113 | After an eighth word before a colon or a second "::" no continuation makes the text an address |
| Inet6Print.Inet6Ntop | sysadmin/nginx/nginx-1.23.3/src/core/ngx_inet.c:295-369 | The printed text, within the 45 bytes required of the buffer, is that of the chosen run of zeros; a shorter buffer is left alone |
| Inet6Print.HexShortest | sysadmin/nginx/nginx-1.23.3/src/core/ngx_string.c:495-540 | Printed groups are small hexadecimal digits without a zero in front |
| Inet6Print.TailIff | sysadmin/nginx/nginx-1.23.3/src/core/ngx_inet.c:334-342 | Which addresses get a dotted end, by their bytes |
| Inet6Print.FindRun | sysadmin/nginx/nginx-1.23.3/src/core/ngx_inet.c:306-332 | The loop finds the longest run of at least two zero words, the first of equals |
| Inet6Print.ChosenUnique | sysadmin/nginx/nginx-1.23.3/src/core/ngx_inet.c:306-332 | Two runs of zeros that both satisfy the choice rule are the same, so the printed text is determined |
| Inet6Print.RestIsPrinted | sysadmin/nginx/nginx-1.23.3/src/core/ngx_inet.c:334-369 | What the printing loop emits is the printed fields joined by colons, with one colon more for a leading "::" |
| Inet6Print.PrintedMeaning | sysadmin/nginx/nginx-1.23.3/src/core/ngx_inet.c:334-369 | The printed fields denote the address over all positions of the run and all dotted tails, unless the tail is 255.255.255.255 |
| Inet6Print.UnreadableIff | sysadmin/nginx/nginx-1.23.3/src/core/ngx_inet.c:337-346 | A tail 255.255.255.255 is printed for ::255.255.255.255 and ::ffff:255.255.255.255 and for no other address |
| Inet6Print.PrintThenParse | sysadmin/nginx/nginx-1.23.3/src/core/ngx_inet.c:295-369 | For every address, parsing the printed text gives the same sixteen bytes, except for ::255.255.255.255 and ::ffff:255.255.255.255, which are rejected |
| Inet6Standard.AgreesIff | sysadmin/nginx/nginx-1.23.3/src/core/ngx_inet.c:64-177 | A text is treated as section 2.2 of RFC 4291 wants, read as its words or refused, if and only if it is neither an accepted form with a colon alone at an end or an empty number in a dotted end, nor a standard form with "::" for the last word only or a dotted end that is all ones or begins with five digits or more |
| Inet6Standard.ReadIffLoose | sysadmin/nginx/nginx-1.23.3/src/core/ngx_inet.c:64-177 | The parser takes exactly the texts of a grammar that adds to the standard one a colon in front and one behind, and lacks "::" for the last word only |
| Inet6Standard.PartsRead | sysadmin/nginx/nginx-1.23.3/src/core/ngx_inet.c:64-177 | Every text of either grammar is read as the words it is written from, or refused when it is outside the parser's |
| Inet6Standard.AcceptedAgreesIff | sysadmin/nginx/nginx-1.23.3/src/core/ngx_inet.c:64-177 | An accepted text is read as the standard wants if and only if no colon stands alone at its ends and no number of a dotted end is empty |
| Inet6Standard.StandardAgreesIff | sysadmin/nginx/nginx-1.23.3/src/core/ngx_inet.c:64-177 | A standard text is accepted if and only if it does not end with "::" after seven groups and its dotted end is neither all ones nor begins with more than four digits |
| Inet6Standard.SevenThenGap | sysadmin/nginx/nginx-1.23.3/src/core/ngx_inet.c:158-176 | "1:2:3:4:5:6:7::" is a standard text of 1:2:3:4:5:6:7:0 and is refused |
| Inet6Standard.ColonInFront | sysadmin/nginx/nginx-1.23.3/src/core/ngx_inet.c:82-85 | ":1:2:3:4:5:6:7:8" is no standard text and is read as 1:2:3:4:5:6:7:8 |
| Inet6Standard.ColonBehind | sysadmin/nginx/nginx-1.23.3/src/core/ngx_inet.c:150-170 | "::1:" is no standard text and is read as ::1:0 |
| Inet6Standard.EmptyNumber | sysadmin/nginx/nginx-1.23.3/src/core/ngx_inet.c:19-59 | "::1..2.3" is no standard text and is read as ::1.0.2.3 |
| Inet6Standard.LongNumber | sysadmin/nginx/nginx-1.23.3/src/core/ngx_inet.c:115-140 | "::00001.2.3.4" is a standard text of ::1.2.3.4 and is refused |
| Inet6Standard.PrintedIsStandard | sysadmin/nginx/nginx-1.23.3/src/core/ngx_inet.c:295-369 | Every address is printed in a standard text form for it, also the two that are not read back |
| Cidr.PtoCidr | sysadmin/nginx/nginx-1.23.3/src/core/ngx_inet.c:374-471 | A text is accepted exactly when it denotes a network; the stored mask has the first k bits, the stored address is masked, and NGX_DONE is returned exactly when that changed it |
| Cidr.SlashText | sysadmin/nginx/nginx-1.23.3/src/core/ngx_inet.c:378-471 | An address, a slash and a decimal number of bits denote the address with that many bits, or nothing when there are not so many |
| Cidr.DottedAddress | sysadmin/nginx/nginx-1.23.3/src/core/ngx_inet.c:378-425 | Dotted text stands for its four bytes in order |
| Cidr.MappedIs | sysadmin/nginx/nginx-1.23.3/src/core/ngx_inet.c:488-512 | ::ffff:a.b.c.d counts as a.b.c.d, and no other IPv6 address as an IPv4 one |
| Cidr.StoredNetwork | sysadmin/nginx/nginx-1.23.3/src/core/ngx_inet.c:426-470 | The stored address has the first k bits of the given one and no host bit; NGX_DONE is returned exactly when a host bit was set |
| Cidr.CidrMatch | sysadmin/nginx/nginx-1.23.3/src/core/ngx_inet.c:474-558 | The list matches exactly when some entry admits the address |
| Cidr.AdmitsIff | sysadmin/nginx/nginx-1.23.3/src/core/ngx_inet.c:501-545 | A parsed entry admits exactly the addresses of its family, IPv4-mapped ones counting as IPv4, whose first k bits agree |
| Cidr.MaskedComparison | sysadmin/nginx/nginx-1.23.3/src/core/ngx_inet.c:517-545 | Comparing masked bytes is comparing the first k bits |
| Cidr.Mask6 | sysadmin/nginx/nginx-1.23.3/src/core/ngx_inet.c:431-449 | The byte loop builds the mask of k bits and masks the address in place |
| Cidr.Mask32Bits | sysadmin/nginx/nginx-1.23.3/src/core/ngx_inet.c:456-462 | The shifted 32-bit mask has exactly the first k bits set, for every k up to 32 |
| Cidr.Atoi | sysadmin/nginx/nginx-1.23.3/src/core/ngx_string.c:966-991 | The value of a non-empty digit string that fits, else an error; no overflow on the way |
| Connections.Cycle.GetConnection | sysadmin/nginx/nginx-1.23.3/src/core/ngx_connection.c:1096-1159 | The first free connection as the drain leaves the pool is taken, zeroed but for the flipped instance bit, and entered in the file table unless its descriptor has an entry, and nothing else changes; there is none exactly when the drain leaves none free; a descriptor beyond the table leaves the pool alone |
| Connections.Cycle.FreeConnection | sysadmin/nginx/nginx-1.23.3/src/core/ngx_connection.c:1162-1172 | The connection heads the free list and its table entry is cleared; nothing else changes |
| Connections.Cycle.CloseConnection | sysadmin/nginx/nginx-1.23.3/src/core/ngx_connection.c:1175-1260 | The pool becomes what the specification makes of it in every part |
| Connections.Cycle.ReusableConnection | sysadmin/nginx/nginx-1.23.3/src/core/ngx_connection.c:1263-1291 | The connection leaves the queue and, if it is to be reusable, enters it at the head, which is recorded as its time of queueing; the others keep their order, and nothing else changes |
| Connections.Cycle.DrainConnections | sysadmin/nginx/nginx-1.23.3/src/core/ngx_connection.c:1294-1348 | Over all pools and all handlers, which may drain again: no handler is called exactly with more than a sixteenth of the connections free or none queued; else max(min(32, reusable / 8), 1) of them are, fewer only when the queue became empty, and one more, for the connection called last, if and only if then nothing is free and it is queued again; each call of the loop is for the connection queued the longest ago; a connection has close set when its handler starts, and between the calls of a drain nothing changes |
| Connections.Cycle.Run | sysadmin/nginx/nginx-1.23.3/src/core/ngx_connection.c:1096-1348 | Every finite sequence of steps, with handlers that themselves get, free, close and queue connections, keeps counters, free list, queue and file table in step and leads to the state of the specification |
| Connections.Cycle.Counters | sysadmin/nginx/nginx-1.23.3/src/core/ngx_connection.c:1096-1348 | Free plus used connections make up the pool; the counters are the lengths of list and queue |
| PoolSpec.LastIsLeast | sysadmin/nginx/nginx-1.23.3/src/core/ngx_connection.c:1324-1325 | In a queue kept by recency the last connection was queued before all others |
| PoolSpec.RecencyMinus | sysadmin/nginx/nginx-1.23.3/src/core/ngx_connection.c:1269-1276 | Taking a connection off the queue keeps it ordered by the time of queueing |
| PoolSpec.DrainCalls | sysadmin/nginx/nginx-1.23.3/src/core/ngx_connection.c:1294-1348 | Number and choice of the handlers that one drain calls itself, and the pool between them, over all states and handlers |
| PoolSpec.DrainLaw | sysadmin/nginx/nginx-1.23.3/src/core/ngx_connection.c:1294-1348 | The same in numbers: 1 below 16 reusable connections, an eighth of them up to 255, and 32 from 256 on |
| PoolSpec.DrainsCalls | sysadmin/nginx/nginx-1.23.3/src/core/ngx_connection.c:1319-1335 | The loop from any turn on calls the connection queued the longest ago, in all remaining turns unless the queue is empty before |
| PoolSpec.HandledLogs | sysadmin/nginx/nginx-1.23.3/src/core/ngx_connection.c:1330-1334 | One handler call is one entry at its depth, with the pool when the handler starts, close set, and when it returns; what the handler itself drains is logged deeper |
| PoolSpec.RanFollows | sysadmin/nginx/nginx-1.23.3/src/core/ngx_connection.c:1096-1348 | Over every run, nested drains included, bits, queue and free list agree and the queue stays ordered by recency |
| PoolSpec.ClosedIs | sysadmin/nginx/nginx-1.23.3/src/core/ngx_connection.c:1175-1260 | Closing again changes nothing; otherwise the connection leaves queue and table, becomes free, and its descriptor is closed unless shared; the others keep their order in the queue |
| Connections.Cycle.constructor | sysadmin/nginx/nginx-1.23.3/src/event/ngx_event.c:736-782 | The pool starts consistent, with all connections free and closed, the first at the head of the free list |
| Connections.InvGet | sysadmin/nginx/nginx-1.23.3/src/core/ngx_connection.c:1120-1146 | Taking the head of the free list keeps free list, queue, counters and file table in step |
| Connections.InvFree | sysadmin/nginx/nginx-1.23.3/src/core/ngx_connection.c:1162-1172 | Freeing a connection in use that is not queued keeps free list, queue, counters and file table in step |
| Connections.InvUnqueue | sysadmin/nginx/nginx-1.23.3/src/core/ngx_connection.c:1269-1276 | Taking a connection off the queue keeps bits, counters and lists in step |
| Connections.InvQueue | sysadmin/nginx/nginx-1.23.3/src/core/ngx_connection.c:1280-1290 | Queueing a connection in use keeps bits, counters and lists in step |
| Connections.OldCycles.CleanOldCycles | sysadmin/nginx/nginx-1.23.3/src/core/ngx_cycle.c:1365-1419 | Exactly the old cycles without a live connection are destroyed, each once; the timer runs on while one is live |
| Queue.Links.InsertHead | sysadmin/nginx/nginx-1.23.3/src/core/ngx_queue.h:33-37 | The four pointer writes put the node in front |
| Queue.Links.Remove | sysadmin/nginx/nginx-1.23.3/src/core/ngx_queue.h:80-82 | The two pointer writes take the node out and keep the order of the others |
| Queue.InsertedHead | sysadmin/nginx/nginx-1.23.3/src/core/ngx_queue.h:33-37 | The link updates of an insertion give the ring of the new node followed by the old ones |
| Queue.Removed | sysadmin/nginx/nginx-1.23.3/src/core/ngx_queue.h:80-82 | The link updates of a removal, from any place, give the ring without that node |
| Crc32.Short | sysadmin/nginx/nginx-1.23.3/src/core/ngx_crc32.h:20-35 | The nibble-table form computes the checksum defined bit by bit, for every byte string |
| Crc32.Long | sysadmin/nginx/nginx-1.23.3/src/core/ngx_crc32.h:38-50 | The byte-table form computes the checksum defined bit by bit, for every byte string |
| Crc32.Update | sysadmin/nginx/nginx-1.23.3/src/core/ngx_crc32.h:57-69 | An update continues the register over the given bytes |
| Crc32.Chunked | sysadmin/nginx/nginx-1.23.3/src/core/ngx_crc32.h:53-73 | Init, an update for each chunk and final give the checksum of the whole, for every split |
| Crc32.CheckValue | sysadmin/nginx/nginx-1.23.3/src/core/ngx_crc32.h:22-50 | The checksum of "123456789" is 0xcbf43926 |
| Crc32.AfterAppend | sysadmin/nginx/nginx-1.23.3/src/core/ngx_crc32.h:57-69 | The register after two messages in sequence is that after their concatenation |
| Crc32.Table256Is | sysadmin/nginx/nginx-1.23.3/src/core/ngx_crc32.c:34-99 | Each of the 256 entries is eight shifts of its index by the polynomial 0xedb88320 |
| Crc32.Table16Is | sysadmin/nginx/nginx-1.23.3/src/core/ngx_crc32.c:26-31 | Each of the 16 entries is four shifts of its index by the polynomial |
| Crc32.ByteAtOnce | sysadmin/nginx/nginx-1.23.3/src/core/ngx_crc32.h:45-47 | Adding a byte before eight shifts is processing its bits one by one |
| Crc32.LongStepIs | sysadmin/nginx/nginx-1.23.3/src/core/ngx_crc32.h:45-47 | A table step is eight bit steps |
| Crc32.ShortStepIs | sysadmin/nginx/nginx-1.23.3/src/core/ngx_crc32.h:28-32 | Two nibble steps are eight bit steps |
| Crc32.EightXor | sysadmin/nginx/nginx-1.23.3/src/core/ngx_crc32.h:45-47 | Eight shifts are linear over exclusive or |
| Md5.Hash | sysadmin/nginx/nginx-1.23.3/src/core/ngx_md5.c:18-111 | For every message and every split of it into updates the result is the digest of RFC 1321 of the concatenation, two values of which `Md5Vectors` gives |
| Md5Vectors.EmptyMessage | sysadmin/nginx/nginx-1.23.3/src/core/ngx_md5.c:18-111 | The digest of the empty message is d41d8cd98f00b204e9800998ecf8427e, as section A.5 of RFC 1321 says |
| Md5Vectors.LettersMessage | sysadmin/nginx/nginx-1.23.3/src/core/ngx_md5.c:18-111 | The digest of the 62 letters and digits of that section, two blocks long, is d174ab98d277d9f5a5611c2c9f419d9f |
| Md5.Context.Update | sysadmin/nginx/nginx-1.23.3/src/core/ngx_md5.c:30-58 | The context stands for the bytes given so far: blocks are folded into the state, the rest is in the buffer, the byte count is modulo 2^64 |
| Md5.Context.Final | sysadmin/nginx/nginx-1.23.3/src/core/ngx_md5.c:61-111 | Padding, length and the last blocks give the digest, and the context is cleared |
| Md5.Context.Body | sysadmin/nginx/nginx-1.23.3/src/core/ngx_md5.c:169-283 | The loop folds the blocks of the data, in order, into the state |
| Md5.BlocksAppend | sysadmin/nginx/nginx-1.23.3/src/core/ngx_md5.c:183-274 | Folding a concatenation of blocks is folding the parts in turn |
| Md5.Context.WholeTail | sysadmin/nginx/nginx-1.23.3/src/core/ngx_md5.c:61-92 | The padded message ends with the padded rest, so only it remains to be folded |
| Md5Block.Block | sysadmin/nginx/nginx-1.23.3/src/core/ngx_md5.c:183-272 | The 64 unrolled steps are the table-driven transformation of section 3.4 of RFC 1321 |
| Md5Block.Round1 | sysadmin/nginx/nginx-1.23.3/src/core/ngx_md5.c:190-209 | The unrolled first round leaves the registers as the definition has them after 16 steps |
| Md5Block.Round2 | sysadmin/nginx/nginx-1.23.3/src/core/ngx_md5.c:211-228 | The unrolled second round takes the definition's state after 16 steps to that after 32 |
| Md5Block.Round3 | sysadmin/nginx/nginx-1.23.3/src/core/ngx_md5.c:230-247 | The unrolled third round takes the definition's state after 32 steps to that after 48 |
| Md5Block.Round4 | sysadmin/nginx/nginx-1.23.3/src/core/ngx_md5.c:249-266 | The unrolled fourth round takes the definition's state after 48 steps to that after 64 |
| Md5Block.FastIsF | sysadmin/nginx/nginx-1.23.3/src/core/ngx_md5.c:122-122 | The F of the code, without and-not, equals the F of section 3.4 of RFC 1321 for all words |
| Md5Block.FastIsG | sysadmin/nginx/nginx-1.23.3/src/core/ngx_md5.c:123-123 | The G of the code, without and-not, equals the G of section 3.4 of RFC 1321 for all words |
| Md5Block.Quarter | sysadmin/nginx/nginx-1.23.3/src/core/ngx_md5.c:131-134 | Four steps that write the registers in turn are four steps of the definition |
| LogList.Insert | sysadmin/nginx/nginx-1.23.3/src/core/ngx_log.c:676-707 | The head node stays the head even when contents are swapped; the list holds the old logs and the new one, inserted by level |
| LogList.InsertedHolds | sysadmin/nginx/nginx-1.23.3/src/core/ngx_log.c:676-707 | Insertion keeps the descending order and loses nothing |
| LogList.InsertedIsStable | sysadmin/nginx/nginx-1.23.3/src/core/ngx_log.c:676-707 | Logs of one level keep their order of insertion |
| LogList.RunsStaySorted | sysadmin/nginx/nginx-1.23.3/src/core/ngx_log.c:676-707 | Over every run of insertions the list stays sorted and holds exactly the inserted logs |
| LogList.InsertAll | sysadmin/nginx/nginx-1.23.3/src/core/ngx_log.c:676-707 | A run of insertions into the linked list keeps the head node and yields the logs inserted one by one by level |
| LogList.Deliver | sysadmin/nginx/nginx-1.23.3/src/core/ngx_log.c:158-196 | The loop that stops early reaches exactly the logs whose level is at least that of the message, in list order; in debug_connection mode (bit 31 of the level) all |
| Modules.CountModules | sysadmin/nginx/nginx-1.23.3/src/core/ngx_module.c:82-153 | Assigned indices are kept, new ones are distinct from all of that type in both cycles, and the result exceeds them all; it is 0 if and only if before the call an old module of the type that is not loaded any more has no index |
| Modules.CountWraps | sysadmin/nginx/nginx-1.23.3/src/core/ngx_module.c:127-152 | For a concrete pair of cycles, one with a module that never got an index, the count is 0 |
| Modules.CtxIndex | sysadmin/nginx/nginx-1.23.3/src/core/ngx_module.c:318-360 | The result is the first index from the start on that is free in both cycles |
| Modules.Cycle.AddModule | sysadmin/nginx/nginx-1.23.3/src/core/ngx_module.c:156-276 | Each return code if and only if its condition holds before the call: room, version, signature, not loaded yet, an index below the maximum free in both cycles, and create_conf; then the module stands before the first one listed later and has the least free index; refusals leave the list alone |
| Modules.Cycle.Check | sysadmin/nginx/nginx-1.23.3/src/core/ngx_module.c:164-191 | The checks in their order: each refusal exactly when its own condition fails and those before it hold |
| Modules.Cycle.GiveIndex | sysadmin/nginx/nginx-1.23.3/src/core/ngx_module.c:193-208 | The least index that is free in both cycles is given; it is accepted exactly when one below the maximum is free |
| Modules.Cycle.ModuleIndex | sysadmin/nginx/nginx-1.23.3/src/core/ngx_module.c:279-315 | The result is the least index that no module of either cycle has |
| Modules.Cycle.FindPlace | sysadmin/nginx/nginx-1.23.3/src/core/ngx_module.c:215-244 | The two loops find the first loaded module that is listed later |
| Modules.Cycle.PutBefore | sysadmin/nginx/nginx-1.23.3/src/core/ngx_module.c:246-255 | The array holds the modules with the new one inserted and stays null-terminated |
| Modules.InsertionRespects | sysadmin/nginx/nginx-1.23.3/src/core/ngx_module.c:215-255 | An insertion keeps the listed modules in the order of the list |
| Modules.RunRespects | sysadmin/nginx/nginx-1.23.3/src/core/ngx_module.c:156-276 | Over every run of additions that share one order list, the listed modules stay in its order and none is lost |
| Chains.CoalesceFile | sysadmin/nginx/nginx-1.23.3/src/core/ngx_buf.c:226-267 | The range is the longest one through consecutive buffers of one file that the limit allows: cut in the buffer the limit falls into, at the next page boundary if that buffer reaches it; it exceeds the limit by less than a page; all buffers before the one returned are covered |
| Chains.CoveredIff | sysadmin/nginx/nginx-1.23.3/src/core/ngx_buf.c:239-266 | The buffer returned is itself wholly covered if and only if the limit falls into a buffer that ends on the next page boundary |
| Chains.CutIff | sysadmin/nginx/nginx-1.23.3/src/core/ngx_buf.c:239-252 | The range ends inside a buffer if and only if the limit falls into one that the run reaches |
| Chains.CompletedByPage | sysadmin/nginx/nginx-1.23.3/src/core/ngx_buf.c:239-252 | A chain of one page and a limit of 100 bytes for which the covered buffer is returned |
| Chains.UpdateSent | sysadmin/nginx/nginx-1.23.3/src/core/ngx_buf.c:271-314 | What waits to be sent afterwards is what waited before without the first bytes, and only starts of buffers move; the chain returned starts at the first buffer, those with a flag and no data aside, that these bytes have not begun and finished |
| Chains.FirstLeftUnique | sysadmin/nginx/nginx-1.23.3/src/core/ngx_buf.c:276-310 | That buffer is determined by the chain and the number of bytes |
| Chains.SentDrops | sysadmin/nginx/nginx-1.23.3/src/core/ngx_buf.c:271-314 | Emptying the first buffers and shortening the next drops exactly that many bytes |
| Chains.UpdateChains | sysadmin/nginx/nginx-1.23.3/src/core/ngx_buf.c:184-223 | The output joins the busy chain; foreign links go to the pool and own empty buffers, reset, to the free chain, up to the first own buffer with data |
| Chains.NoneLost | sysadmin/nginx/nginx-1.23.3/src/core/ngx_buf.c:184-223 | Every link ends up in exactly one chain |

## Left out

- Addresses of allocations: the chunk of a hash table gets any non-zero address; that it does not exceed the
  address space is not modelled.
- HashKeys.KeysArrays.AddKey: the key bytes are a value; the code lower-cases them in place, also when the key
  is refused afterwards. The scan for two dots looks at the byte behind the key, taken here not to be a dot.
- CombinedHash.BuildCombined: `ngx_qsort` is not part of this model; an insertion sort with the same comparison
  stands for it (`NameOrder.SortNames`). The wildcards must not clash, for otherwise the comparison is no order.
- CombinedHash.FindCombined: names are in lower case, as the callers pass them.
- ServerNames.Serve: names given by regular expressions are left out.
- WildcardHash.Build: called with at least one name, as its callers do, or with a bucket size that has room.
- Reload.InitCycle: the test mode, the steps before the zones (parsing, directories, log files) and after the
  sockets are one success flag; deferred accept, accept filters and reuseport flags of sockets are left out.
- Listeners.OpenSockets: the error codes are reduced to fatal, retry and success.
- Zones: a failed `mmap` leaves `MAP_FAILED` in the zone, which rollback unmaps without effect; sizes are not
  tied to memory.
- ConfFile.Reader.ReadToken: the configuration dump and the parameter given on the command line are left out.
- Inet6.Inet6Addr, Inet6Print.Inet6Ntop: memory is the sixteen bytes and the text; family and port are left out.
- Cidr.CidrMatch: IPv4 addresses are compared as their four bytes, on which the 32-bit operations act alike.
- Connections.Cycle.Run: events, timers and the socket calls of a close are left out; a handler's steps are
  those the pool allows (freeing what is free, say, is skipped); handlers are finite scripts.
- Connections.Cycle.IsUsed: stands for a caller's knowledge of what it holds; the code has no such walk.
- Crc32.Long: shares its loop with `ngx_crc32_update`, whose text is the same; the copy of the small table to an
  aligned address (`ngx_crc32_table_init`) is left out.
- LogList.Deliver: writers, full disks and the standard error stream are left out; what is proved is which logs
  are reached.
- LogList.Insert: needs the new node's link to be null, as freshly allocated nodes have it.
- Modules.CountModules: assigned indices are bounded so that the search cannot run into the unset value.
- Modules.Cycle.AddModule: the configuration that a core module creates is left out, except that it may fail;
  assigned indices are bounded as for `Modules.CountModules`.
- Chains: `ngx_chain_get_free_buf`, `ngx_chain_add_copy` and the creation of buffers add only easy members.
- Printf formatting beyond decimal and hexadecimal numbers, URL parsing, passwords, arrays and lists of the
  pool allocator, Windows and FreeBSD branches, statistics counters.
