# regexache in Dafny

regexache is a Go package that puts a cache in front of `regexp.MustCompile`.
It keeps a table from pattern text to a compiled matcher together with a use
count and the time of last use. A `clean` pass evicts entries that are
seldom used and old, and a report lists the patterns by use count. A second
piece, `standardize`, rewrites regular-expression text into a canonical
form. It reorders the ranges inside bracket classes and collapses
`0-9A-Za-z_` to `\w`.

The model has five modules:

- `Regexache` (regexache.dfy) is imperative, as the Go code is. It has:
  - a datatype `Entry` for `centry` (regexache.go:122-126): the compiled matcher, its use count and the time of last use;
  - `Evictable`, the eviction rule of `clean`;
  - a class `Cache` with the table (`map<string, Entry>`) and the `caching` flag as fields;
  - `MustCompile`, `Lookup`, `Clean` and `OutputCache` as methods;
  - the loops of `clean` and `outputCache` written as `while` loops with invariants, over the map value.
- `Slices` (slices.dfy) holds the two library calls `outputCache` makes, `slices.Sort` and `slices.Reverse`, as functions on sequences.
- `Standardization` (standardize.dfy) is pure, like `standardize`. It has:
  - the behaviour of `Regexp.ReplaceAllString` for the pattern shape `(\[)([^\]]*)(T)([^\]]*)(\])`, written out as a left-to-right scan (`ReplaceAll`);
  - an independent class-by-class reference reading (`Classwise`), proved equal to the scan;
  - the whole chain (`Standardize`), with its properties proved on the reference reading.
- `StandardizationExamples` (standardize_examples.dfy) holds worked cases: the canonical form of the class of each case of standardize_test.go, and lemmas that carry a class to a whole pattern with plain text around it.
- `StandardizationCases` (standardize_cases.dfy) evaluates every case of standardize_test.go on the whole pattern: `Standardize` maps its input to its expected output.

Facts about the code that the model keeps:

- `lookup` increments `count` and sets `lastUse` on a copy of the map value, because `centry` is stored by value. A hit therefore never changes the table.
  - Every stored count stays 1 (`Cache.SingleUse` is preserved by every operation).
  - With the default minimum of 2 uses, eviction depends on age alone.
  - With the default report threshold of 10, the report has no rows (`ReportOfOnes`).
- `clean` tests its deadline only after it has examined an entry. A pass over a non-empty table therefore examines at least one entry.
- `ReplaceAllString` with a greedy `([^\]]*)` in front of the token moves the *rightmost* occurrence of the token to the front of the class. A class ends at the first `]` after its `[`, and the scan resumes after the `]` of a match.
- For a class with at most one range of each kind, in a pattern without `\\_`, and when no move joins pieces of the class into a new token (see the next point), the class order that results is digits, upper-case range, lower-case range, then underscore. With `\\_` in the pattern the underscore step is skipped and `_` stays where it was ("badEscaping2"). With two ranges of one kind only the rightmost one moves (`StandardizationExamples.SwapForward`). The "ordering" case of the tests shows the first three (standardize_test.go:55-59), and the "hex" and "numOrder" cases show the underscore behind the letter ranges (standardize_test.go:25-29, 40-44).
- The tokens are found anywhere in the class text, also across the items of the class. So `[Aa-z-Z0-9_]`, which holds `A`, `a-z`, `-`, `Z`, the digits and `_`, becomes `[\w]`, which also matches `B` to `Y` and no longer matches `-` (`StandardizationExamples.WidenedClass`). The hypothesis of `NoCollapse` is therefore a missing *character* of `0-9A-Za-z_`, not a missing range: a class without an upper-case range can still collapse. A move can also create a range that the earlier steps did not see. The digits step runs last (standardize.go:32-34), so such a range stays where the join left it. `a-0-9z_` holds no lower-case range, yet becomes `0-9_a-z`, with `_` in front of the new `a-z` (`StandardizationExamples.JoinedClass`). `[\a-0-9z_]` is the range from the bell character to `0`, then `-`, `9`, `z` and `_`. It becomes `[0-9_\a-z]`, whose range from the bell character to `z` widens the class (`StandardizationExamples.JoinedRange`).
- `standardize` is not idempotent: `[A-FA-Z]` becomes `[A-ZA-F]`, and that becomes `[A-FA-Z]` again (`StandardizationExamples.NotIdempotent`).

External inputs the model takes as parameters:

- The compiler `regexp.MustCompile` is foreign code. It is modelled by `Compile`, which takes an oracle `valid: string -> bool` and returns a fresh `Regexp`, or `None` where Go panics. Each `Cache` holds its oracle as a constant `valid`, fixed by the constructor, so one cache always sees the same compiler.
- Clock readings (`time.Now`) are parameters: `now` in `MustCompile`, and in `Clean` the start reading plus two functions giving the reading for the j-th age test and the j-th deadline test.
- The configuration values `minimumUses`, `expiration`, `cleanTime` and `outputMin` are parameters. `caching` is set by the constructor.

## Model

| member | source | states |
|---|---|---|
| Regexache.Compile | regexache.go:159 | `regexp.MustCompile`: a result exactly when the compiler accepts the text, and then a fresh matcher for that text |
| Regexache.Cache.constructor | regexache.go:46-54 | the table starts empty with the given caching flag and compiler, and the invariants hold |
| Regexache.Evictable | regexache.go:136 | an entry is evicted only when its age is strictly above `expiration`; with `minimumUses == 0` age alone decides; an entry used at least `minimumUses > 0` times is never evicted |
| Regexache.Cache.Lookup | regexache.go:182-193 | a hit returns the stored matcher of that key and a miss returns nothing; the method modifies nothing, so the count and time updates on the copy never reach the table |
| Regexache.Cache.MustCompile | regexache.go:157-180 | caching off: a fresh matcher (or failure) and the table unchanged. Hit: the stored matcher and the table unchanged, that entry's count and time included. Miss: the table gains exactly `str -> (result, 1, now)`. Rejected pattern: failure and no entry. A matcher is returned exactly when the cache's compiler accepts `str`, and every matcher returned was compiled from `str`. `Valid` (every stored entry holds a matcher for its own key, which the compiler accepts) is kept, and `SingleUse` is preserved |
| Regexache.Cache.Clean | regexache.go:130-144 | `Cleaned` holds between the old and new table: keys are only removed; survivors keep their exact entries; examined keys are distinct old keys, and a non-empty table has at least one; an examined key is removed exactly when the line-136 rule held at its own clock reading; a pass that left keys unexamined ended on a deadline reading past `start + cleanTime`, and no earlier reading was past it. `caching`, `Valid` and `SingleUse` are preserved |
| Regexache.Sweep | regexache.go:134-143 | the loop of `clean` on a map value keeps only unchanged entries of the map it starts from, and establishes `Cleaned` for some order of the keys |
| Regexache.Visit | regexache.go:135-138 | one step of the loop: the key is deleted exactly when the line-136 rule holds at the age reading taken for it, and the state of the pass (examined and pending keys split the keys of the table, survivors unchanged, every examined key deleted exactly when its rule held) is kept |
| Regexache.FullPass | regexache.go:135-138 | a pass never cut short, with a single clock reading `now`, leaves exactly `Retained`: the entries for which the eviction rule is false at `now` (only deletes, all evictable entries go, count gate off when `minimumUses == 0`, strict `>` on age) |
| Regexache.Cache.OutputCache | regexache.go:195-230 | the header is `regex\tcount`; each row is a key of the table with its own count, at least `outputMin`; counts never increase down the rows; a key with count at least `outputMin` appears once for every entry holding that count; the table is not modified |
| Regexache.CollectCounts | regexache.go:196-199 | the collected counts are every entry's count, each value as often as entries hold it |
| Regexache.Report | regexache.go:216-229 | over counts in non-increasing order: sound rows in non-increasing order, each key reported once per occurrence of its count among the counts at least `outputMin`, and never otherwise |
| Regexache.AppendSharing | regexache.go:221-228 | the inner loop appends one row for each key whose count equals `v`, keeping the rows sound and ordered |
| Regexache.SameTwice | regexache_test.go:10-17 | with caching on, two calls for one pattern return the same matcher |
| Regexache.Uncached | regexache_test.go:46-57 | with caching off, two calls for one pattern return different matchers |
| Regexache.Distinct | regexache_test.go:59-68 | two different patterns give different matchers, whether caching is on or off |
| Regexache.Rejected | regexache_test.go:78-86 | a pattern the cache's compiler rejects fails, and no entry for it is in the table, whatever the table held before |
| Regexache.ReportOfOnes | regexache.go:186-189 | since a hit writes to a copy, every reported count is 1, so a threshold above 1 gives an empty report |
| Slices.Sort | regexache.go:201 | `slices.Sort`: ascending, and the same multiset of values |
| Slices.Insert | regexache.go:201 | inserting into an ascending sequence keeps it ascending and adds the value to the multiset |
| Slices.Reverse | regexache.go:202 | `slices.Reverse`: element i of the result is element `n-1-i` of the input |
| Slices.ReversePermutes | regexache.go:202 | reversing keeps the multiset of values |
| Slices.SortDescending | regexache.go:201-202 | sorting then reversing gives the same values in non-increasing order |
| Standardization.FindLast | standardize.go:19-23 | the rightmost start of token t below n, and no occurrence after it; nothing exactly when t does not occur below n (group 2 is greedy) |
| Standardization.FindClose | standardize.go:19-23 | the first `]` at or after i, since `[^\]]*` cannot cross a `]`; nothing exactly when there is none |
| Standardization.MatchAt | standardize.go:19-23 | a result e means: the text starts with `[`, position e holds `]`, no `]` lies between them, and the characters between hold t. No result for a text starting with `[` means: the contents up to every `]` that has no earlier `]` do not hold t |
| Standardization.Contains | standardize.go:28 | `strings.Contains`: the empty text is contained in every text, a prefix is contained, and a contained text is never longer than the text it is in |
| Standardization.Unescape | standardize.go:29 | `strings.ReplaceAll(s, "\_", "_")` never lengthens the text, and keeps its length exactly when the text holds no `\_` |
| Standardization.Rewrite | standardize.go:30-35 | one substitution of a match, with template `$1$3$2$4$5` (move t to the front) or `$1\w$2$4$5` (the word set becomes `\w`): never longer than the class, and of the same length for a move |
| Standardization.Fronted | standardize.go:30-34 | when t occurs in a class and the first k positions hold none, its rightmost occurrence is at k or later, and after the move t stands at the front of the class |
| Standardization.ReplaceAll | standardize.go:19-35 | `ReplaceAllString` with one of the five patterns: never longer than the text, and of the same length for a move |
| Standardization.Standardize | standardize.go:27-37 | the result is never longer than the input; what it does to classes and to the text around them is stated by StandardizeIsClasswise, StandardizeOutline and StandardizeClasses |
| Standardization.ReplaceAllIsClasswise | standardize.go:30 | the left-to-right scan of one substitution equals rewriting every bracket class on its own and keeping the text outside classes, one match per class |
| Standardization.ReplaceAllNoClose | standardize.go:19-23 | text without `]` is never matched |
| Standardization.ClasswiseExtend | standardize.go:30-35 | one more substitution after a class-by-class pass is a class-by-class pass with one more step |
| Standardization.CanonicalSteps | standardize.go:30-35 | the step list of the chain applied to one class is `CanonicalClass` |
| Standardization.StandardizeIsClasswise | standardize.go:27-37 | `standardize` equals taking the un-escaped text (or the input when it holds `\\_`) and running every class through the steps on its own |
| Standardization.RewritePermutes | standardize.go:30 | moving a token only permutes the class: same length, same multiset |
| Standardization.RewriteCollapses | standardize.go:35 | the word substitution replaces the rightmost `0-9A-Za-z_` of the class by `\w` at the front of the class |
| Standardization.RewriteKeeps | standardize.go:32-34 | moving one token never destroys an occurrence of another |
| Standardization.ReplaceAllPermutes | standardize.go:32-34 | each move substitution keeps the length and the multiset of the whole text |
| Standardization.ClasswisePermutes | standardize.go:30-34 | any chain of moves keeps the length and the multiset of the whole text |
| Standardization.RewriteAllPermutes | standardize.go:30-34 | any chain of moves keeps the length and multiset of a class |
| Standardization.ClasswiseOutline | standardize.go:30-35 | text outside bracket classes is untouched by the substitutions |
| Standardization.ClasswiseClasses | standardize.go:30-35 | the number of classes is kept, and the i-th class is the i-th class of the input with the steps applied |
| Standardization.StandardizeOutline | standardize.go:27-37 | outside classes `standardize` changes nothing beyond the un-escaping |
| Standardization.StandardizeClasses | standardize.go:27-37 | `standardize` keeps the number of classes and turns the i-th class into its canonical form |
| Standardization.ContainsEscaped | standardize.go:29 | `strings.Contains(s, "\_")` holds exactly when some index starts `\_` |
| Standardization.ContainsDoubleEscaped | standardize.go:28 | `strings.Contains(s, "\\_")` holds exactly when some index starts `\\_` |
| Standardization.UnescapeClean | standardize.go:29 | text without `\_` is unchanged by `strings.ReplaceAll` |
| Standardization.UnescapeAppend | standardize.go:29 | un-escaping works piecewise when no `\_` straddles the cut |
| Standardization.UnescapeSplit | standardize.go:29 | every `\_` becomes `_`, wherever it stands |
| Standardization.UnescapeLeavesNone | standardize.go:28-29 | without `\\_` in the input, no `\_` is left over |
| Standardization.UnescapeComplete | standardize.go:28-29 | when the guard lets the un-escaping run, the text the classes are rewritten from holds no `\_` |
| Standardization.DoubleEscapeKept | standardize.go:28-31 | with `\\_` in the input nothing is un-escaped, the underscore step is skipped, and only the other four substitutions run, class by class |
| Standardization.RewriteAllPlain | standardize.go:30-35 | a class holding none of the tokens is unchanged by the steps |
| Standardization.ClasswiseFixes | standardize.go:30-35 | text whose classes hold none of the tokens is unchanged by the substitutions |
| Standardization.StandardizeUnchanged | standardize.go:27-37 | a pattern without `\_` whose classes hold none of the tokens comes back unchanged |
| Standardization.NoOpenNoClasses | standardize.go:19-23 | text without `[` has no classes; with StandardizeUnchanged, such text without `\_` comes back unchanged |
| Standardization.ClassOrder | standardize.go:30-34 | a class holding digits and both letter ranges starts with the digits range, then the upper-case range, then the lower-case range, then `_` when the underscore step ran and the class holds one |
| Standardization.ReorderedPermutes | standardize.go:30-34 | the four moves keep the length and multiset of a class |
| Standardization.ClassCollapses | standardize.go:35 | when the reordered class holds `0-9A-Za-z_`, the canonical class is `\w` followed by the other characters of the class |
| Standardization.FullClassCollapses | standardize.go:35 | a class with digits, `A-Z`, `a-z` and `_` (underscore step on) whose reordered form has `Z` at index 5 and `z` at index 8 has `0-9A-Za-z_` at its front, so it collapses. The index condition is needed: in `A-ZA-Fa-z0-9_` the rightmost upper-case range `A-F` moves to the front, and the class does not collapse |
| Standardization.NoCollapse | standardize.go:35 | a class missing a character of `0-9A-Za-z_` is reordered but not collapsed, and keeps its multiset. The condition is on characters: a class missing only the upper-case range can still collapse (WidenedClass) |
| StandardizationExamples.OneClass | standardize.go:27-37 | a pattern without `\` holding one class, with text without `[` before it and text without `]` after it, has that class replaced by its canonical form and the text around it kept |
| StandardizationExamples.TwoClasses | standardize.go:27-37 | the same for a pattern holding two classes: each is replaced by its own canonical form, and the text before, between and after them is kept |
| StandardizationExamples.BareClass | standardize.go:27-37 | a pattern that is one class, without `\` or an inner `]`, becomes that class in canonical form |
| StandardizationExamples.Framed | standardize.go:30-35 | the substitutions rewrite a class between plain text and leave the text around it alone |
| StandardizationExamples.TwoFramed | standardize.go:30-35 | the substitutions rewrite each of two classes between plain text on its own, one match per class |
| StandardizationExamples.Hex2Class | standardize_test.go:46-49 | the class `A-F0-9` of the "hex2" case becomes `0-9A-F` |
| StandardizationExamples.NumOrderClass | standardize_test.go:25-34 | the class `a-z0-9-_` of the "numOrder" and "multiClass" cases becomes `0-9a-z_-` |
| StandardizationExamples.Ordering3Class | standardize_test.go:65-69 | the class `a-z0-9-` of the "ordering3" case becomes `0-9a-z-` |
| StandardizationExamples.OrderingClass | standardize_test.go:55-59 | the class `a-zA-Z0-9` of the "ordering" case becomes `0-9A-Za-z` |
| StandardizationExamples.EverywhereClass | standardize_test.go:35-39 | the class `A-Za-z0-9-*&_` of the "everywhere" case becomes `\w-*&` |
| StandardizationExamples.HexClass | standardize_test.go:40-44 | the class `A-Fa-f0-9-*&_` of the "hex" case becomes `0-9A-Fa-f_-*&`, reordered and not collapsed |
| StandardizationExamples.Ordering2Class | standardize_test.go:60-64 | the class `-a-zA-Z0-9._` of the "ordering2" case becomes `\w-.` |
| StandardizationExamples.Ordering4Class | standardize_test.go:70-74 | the class `a-zA-Z0-9._-` of the "ordering4" case becomes `\w.-` |
| StandardizationExamples.Ordering5Class | standardize_test.go:75-79 | the class `0-9a-zA-Z._-` of the "ordering5" case becomes `\w.-` |
| StandardizationExamples.BadEscapingClass | standardize_test.go:80-84 | the class of the "badEscaping" case, after its `\_` became `_` (`0-9a-zA-Z._\-`), becomes `\w.\-` |
| StandardizationExamples.BadEscaping2Class | standardize_test.go:85-89 | the class `0-9a-zA-Z.\\_\-` of the "badEscaping2" case, with the underscore step skipped because the pattern holds `\\_`, becomes `0-9A-Za-z.\\_\-` |
| StandardizationExamples.WidenedClass | standardize.go:30-35 | the class `Aa-z-Z0-9_` holds no upper-case range, yet the chain turns it into `\w` |
| StandardizationExamples.JoinedClass | standardize.go:30-34 | the class `a-0-9z_` holds no lower-case range; moving `0-9` joins `a-` and `z` into `a-z`, and the result `0-9_a-z` has `_` before that range |
| StandardizationExamples.JoinedRange | standardize.go:30-34 | moving `0-9` out of `\a-0-9z_` leaves the range `\a-z`, so the result `0-9_\a-z` spans the bell character to `z` |
| StandardizationExamples.SwapForward | standardize.go:33 | of two upper-case ranges the rightmost moves to the front: `A-FA-Z` becomes `A-ZA-F` |
| StandardizationExamples.SwapBack | standardize.go:33 | and `A-ZA-F` becomes `A-FA-Z` |
| StandardizationExamples.NotIdempotent | standardize.go:27-37 | `standardize` applied twice to `[A-FA-Z]` gives the input back, which differs from the first result |
| StandardizationCases.EmptyCase | standardize_test.go:15-19 | "empty": `""` comes back as `""` |
| StandardizationCases.BasicCase | standardize_test.go:20-24 | "basic": `.*\S.*` comes back unchanged |
| StandardizationCases.NumOrderCase | standardize_test.go:25-29 | "numOrder": `^[a-z0-9-_]+$` becomes `^[0-9a-z_-]+$` |
| StandardizationCases.MultiClassCase | standardize_test.go:30-34 | "multiClass": `^[a-z0-9-_]+[a-z0-9-_]+$` becomes `^[0-9a-z_-]+[0-9a-z_-]+$`, each class on its own |
| StandardizationCases.EverywhereCase | standardize_test.go:35-39 | "everywhere": `^[A-Za-z0-9-*&_]+$` becomes `^[\w-*&]+$` |
| StandardizationCases.HexCase | standardize_test.go:40-44 | "hex": `^[A-Fa-f0-9-*&_]+$` becomes `^[0-9A-Fa-f_-*&]+$` |
| StandardizationCases.Hex2Case | standardize_test.go:45-49 | "hex2": `^#[A-F0-9]{6}$` becomes `^#[0-9A-F]{6}$` |
| StandardizationCases.ParenthesisCase | standardize_test.go:50-54 | "parenthesis": `(/)\|(/(([^~])\|(~[01]))+)` comes back unchanged; its classes `[^~]` and `[01]` hold no token |
| StandardizationCases.OrderingCase | standardize_test.go:55-59 | "ordering": `^[a-zA-Z0-9]+$` becomes `^[0-9A-Za-z]+$` |
| StandardizationCases.Ordering2Case | standardize_test.go:60-64 | "ordering2": `^[-a-zA-Z0-9._]*$` becomes `^[\w-.]*$` |
| StandardizationCases.Ordering3Case | standardize_test.go:65-69 | "ordering3": `^[a-z0-9-]+$` becomes `^[0-9a-z-]+$` |
| StandardizationCases.Ordering4Case | standardize_test.go:70-74 | "ordering4": `^[a-zA-Z0-9._-]*$` becomes `^[\w.-]*$` |
| StandardizationCases.Ordering5Case | standardize_test.go:75-79 | "ordering5": `^[0-9a-zA-Z._-]+` becomes `^[\w.-]+` |
| StandardizationCases.BadEscapingCase | standardize_test.go:80-84 | "badEscaping": `[0-9a-zA-Z.\_\-]+$` becomes `[\w.\-]+$`: the `\_` is un-escaped first, then the class collapses |
| StandardizationCases.BadEscaping2Case | standardize_test.go:85-89 | "badEscaping2": `[0-9a-zA-Z.\\_\-]+$` becomes `[0-9A-Za-z.\\_\-]+$`: nothing is un-escaped, `_` is not moved, and the class does not collapse |

## Left out

- Environment configuration in `init` (regexache.go:46-120) and the conditional compilation of the five patterns (standardize.go:17-25) are left out: they parse the environment. The configuration values are parameters, and the patterns are taken as compiled.
- The `maintain` goroutine, `once.Do`, `time.Sleep` and the `RWMutex` locking (regexache.go:131-132, 146-155, 162-164, 170-171, 183-184) are left out: concurrency is not modelled, and one caller runs at a time. So the race between the lookup and the insertion in `MustCompile` is not modelled either.
- The regular-expression engine is a foreign call. `Regexp` carries only its source text, and its identity stands for the pointer Go returns.
- The finalizer, `os.Create`, `WriteString`, the I/O panics and the `fmt` formatting of `outputCache` (regexache.go:101-109, 204-228) are left out. The report is a header string and a sequence of (key, count) rows, without line terminators.
- Wall-clock time is left out: each reading is a parameter.
- Regexache.Cache.Clean: the loop runs on the map value, and its result is stored back once. Go deletes inside the `range` loop instead. The final table is the same, because nothing else reads the table while the lock is held.
- Regexache.Cache.Clean: Go's unspecified map iteration order becomes a nondeterministic choice of the next key.
- 64-bit arithmetic is not modelled: `count`, `lastUse`, `now - lastUse` and the durations are unbounded integers. The overflow of `now - lastUse` for extreme clock values is out of scope.
- Slices.Sort and Slices.Reverse are stated as functions on sequences, not as the in-place updates of the library.
- Identifiers the tests use that regexache.go does not define (`SetCaching`, `IsCachingEnabled`, `standardizing`, a usage ledger) are not part of this model, and neither is terraform_bench_test.go, which only times workloads.
- Strings: Go strings are UTF-8 byte sequences, and Dafny strings are sequences of `char`. Every token, pattern and escape the code handles is ASCII, where bytes and characters coincide, so indices and lengths agree for the texts involved; for texts with non-ASCII characters, lengths and positions count characters, not bytes.
- Standardization.ClassOrder: states the layout only for a class holding a digits range and both letter ranges. For a class with fewer of them, only the per-step fact that the moved token ends up in front is stated (the helper lemma `Fronted`). The general statement would need a case for each of the 16 subsets of the four tokens, each with its own layout. The test cases whose classes lack some of the tokens ("hex2", "numOrder", "multiClass", "ordering3") are fixed by their concrete class lemmas instead, and their whole patterns by the lemmas of `StandardizationCases`.
