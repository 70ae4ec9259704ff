# KMP substring search, modelled and proved in Dafny

This project models the core of a small Java repository. That core is the Knuth-Morris-Pratt exact substring search in `KMP.java` and the input-line parsing of its benchmark runner in `Main.java`.

- `kmp.dfy` holds the search itself. `ComputeLps` builds the failure function ("lps" array) in place, with the `while` loop of `computeLPS`. `Search` runs the two-pointer scan of `search`, including its null and empty-pattern policies. Each is proved equal to a brute-force reference definition:
  - `LongestBorder` is the longest proper prefix of `pattern[..i+1]` that is also its suffix.
  - `Occurrences` is every offset where the pattern occurs.

  Both proofs come with ghost iteration counters that establish the linear bounds of the doc comment.
- `runner.dfy` holds the input side of `Main.java`:
  - `ExpandTextField` expands the `repeat:COUNT:SUBSTRING` shorthand, with its `StringBuilder` loop as `RepeatLoop`.
  - `ReadCases` and `ReadLine` are the line-filter loop of `main`: trim, skip blank and `#` lines, split into three `|` fields, and build a `TestCase` per accepted line.

  Each method is proved equal to a functional specification (`ExpandedText`, `ParseLines`). Lemmas then state the documented rules about those specifications.
- `java_strings.dfy` models the Java library calls `Main.java` relies on:
  - `String.trim`: strips code units at or below U+0020 at both ends.
  - `String.split(sep, limit)`: takes a one-character literal separator and a positive limit, and keeps trailing empty parts.
  - `Integer.parseInt`: an optional sign and ASCII decimal digits within the 32-bit range. Any other input gives `None`, standing for `NumberFormatException`.

  The split model comes with its inverse `Join` and round-trip lemmas in both directions.
- `wrappers.dfy` holds `Option`, which stands for Java `null` and for a parse failure.

## Model

| member | source | states |
|---|---|---|
| Kmp.ComputeLps | src/main/java/org/example/KMP.java:26-51 | the array has the pattern's length, so it is empty for the empty pattern; lps[i] is the longest proper border of pattern[..i+1]; the loop runs at most 2m iterations |
| Kmp.LongestBorderBounds | src/main/java/org/example/KMP.java:19-21 | lps[0] = 0 and lps[i] <= i; the prefix of length lps[i] equals the suffix of that length, and no longer proper prefix equals the suffix of its length |
| Kmp.LongestBorderSpec | src/main/java/org/example/KMP.java:19-21 | the reference value is a proper border of pattern[..n], and every proper border is at most it |
| Kmp.LongestBorderFromSpec | src/main/java/org/example/KMP.java:19-21 | searching downward from a bound above which there is no border finds a border, with none above it |
| Kmp.BorderAsSlices | src/main/java/org/example/KMP.java:19-21 | the pointwise border predicate is exactly equality of the length-b prefix and the length-b suffix |
| Kmp.BorderShrinks | src/main/java/org/example/KMP.java:35-38 | a border of pattern[..n+1] of length b+1 gives a border of pattern[..n] of length b, followed by equal characters |
| Kmp.BorderOfBorder | src/main/java/org/example/KMP.java:40-43 | inside a border of length k, the shorter borders of pattern[..n] are exactly the borders of pattern[..k]; this is why `len = lps[len - 1]` skips nothing |
| Kmp.LpsExtend | src/main/java/org/example/KMP.java:35-38 | when pattern[i] == pattern[len], len+1 is the longest border of pattern[..i+1], and the loop invariant holds at i+1 |
| Kmp.BorderGrows | src/main/java/org/example/KMP.java:35-37 | a border followed by the matching character extends by one |
| Kmp.NoBorderAboveGrows | src/main/java/org/example/KMP.java:35-38 | the bound on borders of pattern[..n] carries over, one higher, to pattern[..n+1] |
| Kmp.LpsFallBack | src/main/java/org/example/KMP.java:40-43 | on a mismatch with len > 0, lps[len-1] is still a border of pattern[..i] and no border of pattern[..i+1] above it is lost |
| Kmp.LpsRestart | src/main/java/org/example/KMP.java:44-47 | on a mismatch with len == 0, pattern[..i+1] has no positive border, so lps[i] = 0 |
| Kmp.MatchesBelowSpec | src/main/java/org/example/KMP.java:53-59 | the reference scan lists exactly the offsets below k where the pattern occurs, in strictly increasing order |
| Kmp.Occurrences | src/main/java/org/example/KMP.java:53-59 | the reference match list contains exactly the offsets where the pattern occurs and is strictly increasing |
| Kmp.OccurrencesBySlice | src/main/java/org/example/KMP.java:53-59 | k is in the match list if and only if k + m <= n and text[k..k+m] == pattern |
| Kmp.EmptyPatternOccurrences | src/main/java/org/example/KMP.java:66-69 | the empty pattern occurs exactly at 0, 1, ..., n: n+1 entries |
| Kmp.EmptyTextOccurrences | src/main/java/org/example/KMP.java:75 | a non-empty pattern never occurs in the empty text |
| Kmp.NoMatchesBetween | src/main/java/org/example/KMP.java:75-90 | offsets in [a, b) that are not matches add nothing to the match list |
| Kmp.SkipIsSafe | src/main/java/org/example/KMP.java:81-85 | after pattern[..j] has matched, resuming at lps[j-1] skips no occurrence and keeps the matched prefix aligned with the text |
| Kmp.Search | src/main/java/org/example/KMP.java:61-92 | null text or pattern gives []; otherwise the result is exactly the reference match list (empty pattern included); the scan runs at most 2n iterations |
| Kmp.ScanAdvanceBoth | src/main/java/org/example/KMP.java:76-77 | a matching character that does not complete the pattern keeps the scan invariant |
| Kmp.ScanRecord | src/main/java/org/example/KMP.java:78-82 | a matching character that completes the pattern records offset i - j and, after `j = lps[j - 1]`, keeps the scan invariant, so overlapping matches are found |
| Kmp.RecordStep | src/main/java/org/example/KMP.java:79 | a match followed by non-matches extends the list of matches by that one offset |
| Kmp.ScanFallBack | src/main/java/org/example/KMP.java:84-85 | a mismatch with j > 0 falls back without missing a match |
| Kmp.ScanAdvanceText | src/main/java/org/example/KMP.java:86-87 | a mismatch with j == 0 rules out a match at i |
| Kmp.ScanDone | src/main/java/org/example/KMP.java:75-91 | when the scan reaches the end of the text, the recorded matches are all the occurrences |
| Kmp.OverlappingExample | src/main/java/org/example/KMP.java:80-81 | "aa" in "aaaa" occurs at 0, 1 and 2 |
| Kmp.NoMatchExample | src/main/java/org/example/KMP.java:91 | "xyz" does not occur in "abcdef" |
| Kmp.WholeTextExample | src/main/java/org/example/KMP.java:78-79 | a pattern equal to the text occurs once, at 0 |
| JavaStrings.Trim | src/main/java/org/example/Main.java:28 | the trimmed string has no blank at either end, is no longer than the input, and is empty exactly when the input is all blank |
| JavaStrings.TrimOfPadded | src/main/java/org/example/Main.java:28 | trim removes exactly the blank padding around a trimmed string |
| JavaStrings.TrimIdempotent | src/main/java/org/example/Main.java:60 | trimming twice is trimming once |
| JavaStrings.IndexOf | src/main/java/org/example/Main.java:30 | the first occurrence of the separator: it is there, and not earlier |
| JavaStrings.SplitShapeOfSplit | src/main/java/org/example/Main.java:63 | the split has between 1 and limit parts, and only the last may contain the separator |
| JavaStrings.SplitAtFirst | src/main/java/org/example/Main.java:63 | split cuts at the first separator and splits the rest with one part fewer |
| JavaStrings.JoinOfSplit | src/main/java/org/example/Main.java:63 | rejoining the parts with the separator gives back the string |
| JavaStrings.SplitOfJoin | src/main/java/org/example/Main.java:63 | splitting the join of well-shaped parts gives back the parts |
| JavaStrings.SplitCount | src/main/java/org/example/Main.java:63-64 | the number of parts is min(separators + 1, limit) |
| JavaStrings.ParseInt | src/main/java/org/example/Main.java:67 | an accepted string is an optional sign followed by digits, and its value lies in the 32-bit range |
| JavaStrings.NatDecimal | src/main/java/org/example/Main.java:67 | the decimal form of n is a non-empty string of digits whose value is n |
| JavaStrings.ParseIntOfDecimal | src/main/java/org/example/Main.java:65-70 | parseInt reads back every 32-bit integer from its decimal form and rejects the decimal form of any integer outside that range |
| Runner.Repeat | src/main/java/org/example/Main.java:71-74 | the repetition has length count * \|sub\| for count > 0 and is empty otherwise |
| Runner.RepeatAdd | src/main/java/org/example/Main.java:73 | repeating a + b times is repeating a times, then b times |
| Runner.RepeatAt | src/main/java/org/example/Main.java:73 | character \|sub\| * i + k of the repetition is sub[k] |
| Runner.RepeatLoop | src/main/java/org/example/Main.java:72-74 | the StringBuilder loop appends sub exactly count times; nothing when count <= 0 |
| Runner.ExpandTextField | src/main/java/org/example/Main.java:59-77 | the method returns the specified expansion of the field |
| Runner.ExpandPadded | src/main/java/org/example/Main.java:60 | blank padding around the field does not change its expansion |
| Runner.ExpandPlain | src/main/java/org/example/Main.java:60-76 | a field that does not start with "repeat:" after trimming expands to the trimmed field unchanged |
| Runner.ExpandMissingSubstring | src/main/java/org/example/Main.java:63-64 | "repeat:" followed by text without a second ':' expands to "" |
| Runner.ExpandBadCount | src/main/java/org/example/Main.java:65-70 | a COUNT that parseInt rejects expands to "" |
| Runner.ExpandRepeat | src/main/java/org/example/Main.java:63-74 | a valid COUNT expands to SUBSTRING repeated COUNT times, of length COUNT * \|SUBSTRING\| when COUNT > 0; SUBSTRING keeps any further ':' |
| Runner.RepeatFieldParts | src/main/java/org/example/Main.java:61-63 | "repeat:COUNT:SUBSTRING" is recognised and splits into "repeat", COUNT and SUBSTRING |
| Runner.LineCases | src/main/java/org/example/Main.java:28-39 | one line yields at most one test case |
| Runner.ReadLine | src/main/java/org/example/Main.java:28-39 | the loop body for one line yields exactly the specified cases of that line |
| Runner.ReadCases | src/main/java/org/example/Main.java:27-40 | the loop yields exactly the specified test cases of the lines, in line order |
| Runner.ParseLinesStep | src/main/java/org/example/Main.java:27-39 | one more line appends that line's cases and nothing else |
| Runner.CollectAppend | src/main/java/org/example/Main.java:27-39 | collecting over two blocks of lines is collecting over each block, concatenated |
| Runner.ParseLinesAppend | src/main/java/org/example/Main.java:27-39 | lines are processed independently and in order: the cases of a + b are those of a, then those of b |
| Runner.SkippedLine | src/main/java/org/example/Main.java:28-29 | a blank line, or one whose first non-blank character is '#', yields no test case |
| Runner.TooFewFields | src/main/java/org/example/Main.java:30-34 | a line with fewer than two '\|' after trimming yields no test case |
| Runner.ParsePadded | src/main/java/org/example/Main.java:28 | blank padding around the line does not change the case it yields |
| Runner.AcceptedLine | src/main/java/org/example/Main.java:30-39 | name\|text\|pattern yields the trimmed label, the expanded text and the pattern verbatim, with any further '\|' kept in the pattern |
| Runner.SplitRecord | src/main/java/org/example/Main.java:30 | a record with '\|'-free name and text splits into exactly its three fields |

## Left out

- File reading and writing and all console output (`Files.readAllLines`, `Files.writeString`, `System.out`, `System.err`), including the "Ignored invalid line" message: this is I/O. The lines of the file are a parameter of `ReadCases`.
- `runTest` (Main.java:79-108) is left out: its warm-up and measurement runs, `System.nanoTime`, the floating-point average and the report formatting. It involves timing, floating point and library formatting.
- The `TestCase` class (Main.java:110-120) is the datatype `Runner.TestCase`. Its field `label` is called `caseLabel`, because `label` is a Dafny keyword.
- The linear bounds are stated as ghost counts of loop iterations, not as running time.
- Strings are sequences of Dafny `char`, standing for Java's UTF-16 code units. No surrogate or Unicode-aware handling is modelled.
- JavaStrings.ParseInt: accepts only ASCII digits. `Integer.parseInt` also accepts the decimal digits of other Unicode scripts.
- JavaStrings.Split: models `split` with a pattern that is a single literal character (`":"`, `"\\|"`) and a positive limit. This is the only form `Main.java` uses; general regular expressions are not modelled.
- Runner.ExpandTextField: does not model the initial capacity `sub.length() * Math.max(1, count)` of the `StringBuilder`. In Java that product is 32-bit and can wrap to a negative number for a large COUNT, and then the constructor throws `NegativeArraySizeException`. Nothing in `main` catches it. The model returns the repetition instead. Running out of memory for a huge result is likewise not modelled, because strings are unbounded here.
- Kmp.ComputeLps: the contract does not say that the array is freshly allocated. `Search` only reads it.
