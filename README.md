# EKS version restrictor, modelled in Dafny

`version_restrictor.py` keeps the `cluster_version` validation of an EKS
Terraform module current. It reads the release list of the endoflife.date
API and keeps the names of the releases whose `isEol` is the boolean
`false`. It sorts them numerically by dot-separated components, and falls
back to a plain string sort when a component is not an integer. It then
rewrites two spans of `variables.tf`:

- the inside of the leftmost `contains([...]`, which becomes the quoted list
  `"1.29", "1.30"`;
- the value of the leftmost `error_message = ...`, which becomes
  `"The cluster_version must be one of: 1.29, 1.30."`.

An empty version list aborts before the file is touched.

This project models that pipeline on values:

- The decoded JSON response and the file content are inputs.
- The text to be written back is the result.
- Every fatal exit (`sys.exit(1)` or an uncaught exception) is an `Err`
  carrying a `Failure`.

Modules, one per step of the program:

- `Outcomes` (outcomes.dfy): the failures and the `Result` and `Option`
  wrappers.
- `Text` (text.dfy): `str.split` on one character, `str.join`, and substring
  occurrence.
- `Releases` (releases.dfy): how the response shape is chosen, and the
  end-of-life filter. The filter is a method with a loop, proved against a
  recursive specification function.
- `VersionOrder` (version_order.dfy): the numeric key, the lexical fallback,
  and Python's stable `sorted(key=...)`, written as an insertion sort
  generic over the key function.
- `Render` (render.dfy): the allow-list text and the message text.
- `TerraformUpdate` (terraform_update.dfy): the two regular expressions.
  Each is stated twice, as a predicate on positions (what a match is, and
  that no match starts further left) and as a leftmost-search function
  proved to agree with it. The module also holds the two slice replacements
  and their composition.
- `UpdateIdempotence` (update_idempotence.dfy): running the update twice
  gives the same text as running it once, under the conditions stated there.
  The no-overlap condition is the predicate `MessageClear`.
  It also shows an input where this fails.
- `Restrictor` (restrictor.dfy): `main`, with its empty-list guard.

## Model

| member | source | states |
|---|---|---|
| Text.Join | version_restrictor.py:106 | `sep.join(parts)`, used by the allow-list text and by the message (line 130). `JoinSplit` makes it the inverse of `Split`, and `JoinAvoids` bounds the characters it can produce |
| Text.Split | version_restrictor.py:100 | `s.split(".")` yields at least one part and no part holds the separator |
| Text.JoinSplit | version_restrictor.py:100 | joining the parts of a split with the separator gives the text back |
| Text.SplitWhole | version_restrictor.py:100 | a text without the separator splits into itself alone |
| Text.SplitHead | version_restrictor.py:100 | splitting `u.w` gives `u` followed by the parts of `w` |
| Text.JoinAvoids | version_restrictor.py:106 | a character in neither the parts nor the separator is not in the join |
| Releases.SelectReleases | version_restrictor.py:56-63 | a top-level list is used as is. `{"result": {"releases": x}}` gives `x`. Every other shape fails, and a non-object, non-list value fails as an unexpected shape |
| Releases.Elements | version_restrictor.py:66 | a list is iterated element by element. Only an empty object or an empty string can otherwise be iterated without failing, and they yield nothing |
| Releases.IsActive | version_restrictor.py:68 | `release.get("isEol") is False`: an object whose `isEol` is present and is the boolean `false`. `Step` appends exactly on it |
| Releases.Step | version_restrictor.py:66-69 | one iteration succeeds exactly on a processable release. It appends exactly when `isEol` is the boolean `false`, and what it appends is that release's `name` |
| Releases.ActiveNames | version_restrictor.py:65-69 | the loop's specification: the first failing release's failure, or the collected names. `ActiveNamesSucceeds` says when it succeeds, and `ActiveNamesExact` says that the names are those of the active releases, in order |
| Releases.ActiveVersions | version_restrictor.py:65-69 | the loop returns what the filter specification gives: the first failure, or the collected names |
| Releases.PrefixFailure | version_restrictor.py:66-69 | a failure among the first `n` releases is the failure of the whole loop |
| Releases.ActiveIndices | version_restrictor.py:65-69 | strictly increasing positions that are in range and active, holding every active position |
| Releases.ActiveNamesSucceeds | version_restrictor.py:66-69 | the filter succeeds if and only if every release is processable |
| Releases.ActiveNamesExact | version_restrictor.py:65-69 | on success the names are exactly those of the active releases, one per active release, in their original order |
| Releases.FetchedVersions | version_restrictor.py:55-75 | shape selection, iteration and the filter in sequence, failing at the first step that fails. `GetActiveEksVersions` is proved equal to it |
| Releases.GetActiveEksVersions | version_restrictor.py:55-75 | the list shape is filtered directly and the nested shape through `result.releases`. Any other shape fails before filtering |
| VersionOrder.OrderingFor | version_restrictor.py:99-103 | the `try` succeeds, and the numeric sort is used, exactly when every version's components are all integers `int` accepts. `SortVersions` and `ExampleKeys` use it |
| VersionOrder.Key | version_restrictor.py:99-103 | the key `sorted` compares: the integer components for the numeric sort, the code points for the fallback. `TwoComponentKey`, `ExampleKeyValues` and `LeadingZero` pin its values |
| VersionOrder.LeadingZero | version_restrictor.py:100 | `int` ignores leading zeros, so `"01"` and `"1"` get the same key |
| VersionOrder.LexLeReflexive | version_restrictor.py:100-103 | Python's list and string order is reflexive |
| VersionOrder.LexLeTotal | version_restrictor.py:100-103 | Python's list and string order is total |
| VersionOrder.LexLeTransitive | version_restrictor.py:100-103 | Python's list and string order is transitive |
| VersionOrder.LexLeAntisymmetric | version_restrictor.py:100-103 | keys that are each at most the other are equal |
| VersionOrder.Insert | version_restrictor.py:100-103 | inserting adds exactly the one element to the multiset |
| VersionOrder.InsertSorted | version_restrictor.py:100-103 | inserting into a sorted list keeps it sorted |
| VersionOrder.SortBy | version_restrictor.py:100-103 | the result is a permutation of the input and non-decreasing under the key |
| VersionOrder.SortVersions | version_restrictor.py:98-103 | the result is a permutation of the versions. It is sorted by integer components when every version is dot-separated runs of at most 4300 digits, and by code points otherwise |
| VersionOrder.InsertStable | version_restrictor.py:100-103 | inserting keeps the relative order of the elements with any one key |
| VersionOrder.WithKeyCons | version_restrictor.py:100-103 | the elements with one key in `x` followed by `xs` are `x`, if it has that key, then those of `xs` |
| VersionOrder.InsertStablePast | version_restrictor.py:100-103 | inserting past a head with a smaller key keeps the relative order of the elements with any one key, given that it does so in the tail |
| VersionOrder.SortByStable | version_restrictor.py:100-103 | the sort is stable: elements with equal keys keep their input order |
| VersionOrder.TwoComponentKey | version_restrictor.py:100 | `a.b` of two numerals is numeric, with key `[int(a), int(b)]` |
| VersionOrder.ExampleKeyValues | version_restrictor.py:100 | the keys of `1.30`, `1.9` and `1.29` are `[1,30]`, `[1,9]` and `[1,29]` |
| VersionOrder.ExampleKeys | version_restrictor.py:100-103 | `1.9` sorts before `1.29`, `1.30` sorts after both, and this list sorts numerically |
| VersionOrder.SortTwo | version_restrictor.py:100-103 | two elements already in key order stay as they are |
| VersionOrder.InsertLast | version_restrictor.py:100-103 | an element whose key is above both others is inserted last |
| VersionOrder.SortThree | version_restrictor.py:100-103 | `[a, b, c]` with `b` before `c` and `a` above both sorts to `[b, c, a]` |
| VersionOrder.NumericExample | version_restrictor.py:98-103 | `["1.30","1.9","1.29"]` sorts to `["1.9","1.29","1.30"]` |
| Render.AllowListText | version_restrictor.py:106 | the quoted versions joined by `, `. `AllowListRoundTrip` reads the versions back from it, and `RenderExample` shows it for two versions |
| Render.MessageText | version_restrictor.py:129-131 | the quoted sentence naming the versions joined by `, `. `MessageMatchesAllowList` ties it to the allow-list text, and `RenderExample` shows it for two versions |
| Render.QuoteFrom | version_restrictor.py:106 | the position of the next `"`, with none before it |
| Render.QuotedHead | version_restrictor.py:106 | in a quoted version followed by more text, the closing quote comes right after the version, and the version and the rest can be read back |
| Render.ParseItemsCons | version_restrictor.py:106 | reading a quoted version yields it, then either the end of the list or `, ` and the remaining items |
| Render.ParseItemsJoin | version_restrictor.py:106 | a non-empty allow-list text parses back to its versions |
| Render.AllowListRoundTrip | version_restrictor.py:106 | the allow-list text parses back to exactly the sorted versions, for versions without `"` |
| Render.StripQuotesConcat | version_restrictor.py:106 | dropping quotes distributes over concatenation |
| Render.StripQuotesUnquoted | version_restrictor.py:106 | dropping quotes leaves a version without quotes unchanged |
| Render.StripQuotesJoin | version_restrictor.py:106 | the allow-list text without its quotes is the versions joined by `", "` |
| Render.AllowListAvoids | version_restrictor.py:106 | a character other than `"`, `,` and space that is in no version is not in the allow-list text |
| Render.MessageAvoids | version_restrictor.py:129-131 | a character other than `"`, `,`, space, `.` and those of the fixed lead that is in no version is not in the message |
| Render.LeadSingleLine | version_restrictor.py:130 | the message lead `The cluster_version must be one of: ` holds no `]` and no line break |
| Render.MessageMatchesAllowList | version_restrictor.py:106-131 | the message names the same versions, in the same order, as the allow-list |
| Render.RenderedSingleLine | version_restrictor.py:106-131 | versions without `]` or line breaks give texts without them, and the message starts with `"` |
| Render.RenderExample | version_restrictor.py:106-131 | the texts for `1.29` and `1.30` are `"1.29", "1.30"` and `"The cluster_version must be one of: 1.29, 1.30."` |
| TerraformUpdate.AllowListMatch | version_restrictor.py:110 | `contains\(\[(.*?)\]` matches at a position: `contains([` there, then a `]` with no `]` and no line break before it. `FindAllowList` finds the leftmost one |
| TerraformUpdate.BracketFrom | version_restrictor.py:110 | the lazy `(.*?)\]` stops at the first `]` on the line, and fails when a line break or the end of the text comes first |
| TerraformUpdate.FindAllowListFrom | version_restrictor.py:110-111 | the first allow-list match starting at or after `from`, or none there |
| TerraformUpdate.FindAllowList | version_restrictor.py:110-111 | `re.search` gives the leftmost match with group 1's span, or none anywhere |
| TerraformUpdate.MessageMatch | version_restrictor.py:125 | `(error_message\s*=\s*)(.*)` matches at a position, with group 2 from the end of the white space after `=` to the line end. `MessageMatchDetermined` makes it unique per position, and `FindMessage` finds the leftmost one |
| TerraformUpdate.SpacesEnd | version_restrictor.py:125 | greedy `\s*` stops at the first non-space |
| TerraformUpdate.LineEnd | version_restrictor.py:125 | greedy `.*` stops at the first line break or the end of the text |
| TerraformUpdate.MessageMatchDetermined | version_restrictor.py:125 | at a given start the message pattern matches in one way only |
| TerraformUpdate.FindMessageFrom | version_restrictor.py:125-126 | the first message match starting at or after `from`, or none there |
| TerraformUpdate.FindMessage | version_restrictor.py:125-126 | `re.search` gives the leftmost `error_message\s*=\s*` match with group 2's span, or none anywhere |
| TerraformUpdate.Splice | version_restrictor.py:119-120 | the text before and after the span is kept, and the new text stands in between |
| TerraformUpdate.ReplaceAllowList | version_restrictor.py:110-120 | fails if and only if there is no match. Otherwise only group 1 of the leftmost match changes |
| TerraformUpdate.ReplaceMessage | version_restrictor.py:125-137 | with no match the text is kept. Otherwise only group 2 of the leftmost match changes |
| TerraformUpdate.Rewrite | version_restrictor.py:110-135 | both replacements in order fail if and only if the file has no `contains([...]` match, and then with `AllowListNotFound` |
| TerraformUpdate.UpdateContent | version_restrictor.py:98-137 | the update fails if and only if the file has no `contains([...]` match, and then with `AllowListNotFound` |
| UpdateIdempotence.FindAllowListOf | version_restrictor.py:110-111 | the search returns any leftmost match that has been established |
| UpdateIdempotence.ReplaceAllowListSame | version_restrictor.py:110-120 | a text whose leftmost match already holds the list is kept by the allow-list step |
| UpdateIdempotence.FindMessageOf | version_restrictor.py:125-126 | the search returns any leftmost message match that has been established |
| UpdateIdempotence.MessageMatchSame | version_restrictor.py:125 | two message matches at the same start have the same `=`, value start and value end |
| UpdateIdempotence.SpliceSame | version_restrictor.py:119-120 | splicing in the text already there changes nothing |
| UpdateIdempotence.AllowListKept | version_restrictor.py:110-111 | a change after `contains([` that leaves a `]` on that line keeps the match leftmost |
| UpdateIdempotence.EarlierMessageKept | version_restrictor.py:125-135 | a message match in the edited text that starts before the edited value was already a match of the original text |
| UpdateIdempotence.MessageMatchSpliced | version_restrictor.py:125-135 | splicing a one-line value that starts with neither space nor `=` over a message value leaves a message match with that value |
| UpdateIdempotence.MessageKept | version_restrictor.py:125-135 | a one-line value starting with neither space nor `=` stays the leftmost message match's value |
| UpdateIdempotence.AllowListMatchShift | version_restrictor.py:110 | a match depends only on the text from its start on |
| UpdateIdempotence.AllowListMatchPrefix | version_restrictor.py:110 | a match that closes inside a shared prefix is a match of both texts |
| UpdateIdempotence.NoMatchBeforeLineBreak | version_restrictor.py:110 | an allow-list match cannot run across a line break |
| UpdateIdempotence.SplicePrefixClear | version_restrictor.py:110-135 | a splice before the leftmost allow-list match leaves the text before the splice free of matches |
| UpdateIdempotence.ShiftedPrefixClear | version_restrictor.py:110-135 | a text that continues like the original after a line break, with no `]` since the last match-free point, has no match before the shifted leftmost match |
| UpdateIdempotence.AllowListAfterEarlierSplice | version_restrictor.py:110-135 | a one-line edit without `]` on an earlier line only moves the leftmost match |
| UpdateIdempotence.SortedSingleLine | version_restrictor.py:100-103 | sorting keeps versions free of `]` and line breaks |
| UpdateIdempotence.SplicedAllowList | version_restrictor.py:110-120 | after the first splice, the new list is the leftmost match's group |
| UpdateIdempotence.MessageStable | version_restrictor.py:125-135 | replacing the message a second time with the same text changes nothing |
| UpdateIdempotence.SliceShift | version_restrictor.py:119-120 | equal suffixes have equal slices at corresponding positions, so a moved list is still the same list |
| UpdateIdempotence.AllowListBeforeMessage | version_restrictor.py:110-135 | a message value after the allow-list leaves the second search on the same list |
| UpdateIdempotence.AllowListAfterMessage | version_restrictor.py:110-135 | a message value on an earlier line leaves the second search on the same list, shifted |
| UpdateIdempotence.AllowListStable | version_restrictor.py:110-135 | after the message step, the allow-list step finds its own output again |
| UpdateIdempotence.ReplaceTwice | version_restrictor.py:110-135 | after both steps, applying either step again with the same texts changes nothing, when the message value does not overlap the call |
| UpdateIdempotence.RewriteFound | version_restrictor.py:110-135 | a rewrite that finds the call splices the list into it and then replaces the message |
| UpdateIdempotence.RewriteFixed | version_restrictor.py:110-135 | a text that both steps keep is rewritten to itself |
| UpdateIdempotence.MessageClearAt | version_restrictor.py:110-126 | the no-overlap condition places the message match of the spliced text before the call or after its `]` |
| UpdateIdempotence.SplicedTwice | version_restrictor.py:110-135 | the text written by the first rewrite is kept by both steps |
| UpdateIdempotence.RewriteIdempotent | version_restrictor.py:110-135 | rewriting the rewritten text with the same one-line texts gives the same result, when the message value does not overlap the call |
| UpdateIdempotence.UpdateIdempotent | version_restrictor.py:98-135 | updating the updated text with the same versions gives the same text, when no version holds `]` or a line break and the message value does not overlap the `contains([...]` call |
| UpdateIdempotence.NoBracketNoMatch | version_restrictor.py:110 | a text without `[` has no allow-list match |
| UpdateIdempotence.MessageOne | version_restrictor.py:129-131 | the message line for version `1` holds no `[` |
| UpdateIdempotence.RenderOne | version_restrictor.py:100-106 | version `1` sorts to itself and renders as `"1"` |
| UpdateIdempotence.OverlapAllowList | version_restrictor.py:110-119 | in `error_message=contains([x]` group 1 is the `x` |
| UpdateIdempotence.OverlapMessage | version_restrictor.py:125-132 | after the first splice, the message value is the whole `contains([...]` call |
| UpdateIdempotence.OverlapFirstRun | version_restrictor.py:98-135 | the first update of that file replaces the call by the message |
| UpdateIdempotence.OverlapBreaksIdempotence | version_restrictor.py:98-135 | that file updates once, and its update then fails with `AllowListNotFound` |
| Restrictor.Run | version_restrictor.py:161-167 | a failed fetch fails the run, an empty list aborts with `NoActiveVersions` before any update, and otherwise the result is the update of the file. The run succeeds if and only if the fetch succeeds with a non-empty list and the file has a `contains([...]` match |

## Running the update twice

Running the update a second time with the same versions is expected to leave
the file as the first run wrote it. The code can break this when the
`error_message` value overlaps the `contains([...]` call.

- The message pattern's `.*` runs to the end of its line. A value such as
  `error_message = contains([x]` therefore swallows the allow-list call, and
  the first run writes the message over it.
- The second run then finds no `contains([...]` and fails.
  `UpdateIdempotence.OverlapBreaksIdempotence` proves this.
- An overlap does not always break it. When another `contains([...]` follows
  on a later line, both runs can write the same text.
- `UpdateIdempotence.UpdateIdempotent` proves that running twice equals
  running once when no version holds `]` or a line break and the message
  value does not overlap the call (`UpdateIdempotence.MessageClear`). That
  condition is sufficient, not necessary. No condition is needed that the
  versions avoid `contains([` or `error_message`.

## Left out

- The HTTP request, its status check and timeout, and `json.loads`
  (version_restrictor.py:48-53, 77-79): network I/O and a foreign parser. The
  decoded JSON value is an input. JSON numbers are integers, since the filter
  only tests for the boolean `false`.
- File existence checks, reading and writing, `sys.argv`, logging and the
  exit statuses (version_restrictor.py:90-96, 140-150, 153-159). The content
  is an input and the written text a result. Every exit is an `Err`.
- VersionOrder.Key: a numeric component is a non-empty run of at most 4300
  ASCII digits. Python's `int` also accepts signs, surrounding white space,
  underscores and non-ASCII digits, and such versions sort numerically there
  but lexically here. The 4300-digit cap is CPython's default
  `sys.get_int_max_str_digits()` from 3.11 on (and in patched 3.7-3.10
  releases). Older interpreters convert longer components, so they sort
  such versions numerically where this model sorts them lexically.
- Releases.Step: a release that is active and whose `name` is missing fails
  here, as `release["name"]` raises KeyError on line 69. A `name` that is
  present but not a string also fails here, while the program appends it
  and fails later, inside `update_terraform_file` (lines 99-103) before
  anything is written. There, either the key's `s.split` raises
  AttributeError, or `int` first raises ValueError on a string component and
  the fallback `sorted(versions)` then raises TypeError comparing a string
  with a non-string. The outcome is the same in every case: exit status 1
  and no write. Releases.ActiveVersions inherits this.
- TerraformUpdate.IsSpace: `\s` is the ASCII white space that Python's `\s`
  matches. The non-ASCII Unicode spaces it also matches are not modelled.
- Exception kinds (`KeyError`, `AttributeError`, `TypeError`, `SystemExit`)
  are collapsed into `UnexpectedShape` and `MalformedResponse`. All of them
  end the program with status 1.
- UpdateIdempotence.UpdateIdempotent: proved only when the message value
  found after the first splice lies wholly before or wholly after the
  `contains([...]` call. The unconditional form does not hold.
