# Top scorer and price lookup, verified

Two short console exercises, each a linear scan over parallel arrays:

- **Problem2** (`top`) finds the index of the highest score. It starts from a
  candidate index (0 at the call site), scans indices 1 to n-1 and replaces the
  candidate only by a strictly greater score, so it returns a maximum and, on
  ties, the first one. Its `run` applies it to five fixed names and scores and
  prints the winner's name and score.
- **Problem10** (`place`) finds the first index whose item name equals the
  wanted name exactly, and throws `IllegalArgumentException("Item not found")`
  when there is none. Its `run` reads a name and prints the cost at that index.

Both routines are modelled as methods with `while` loops over Dafny arrays,
proved against ghost predicates (`IsFirstMax`, `IsTop`, `IsFirstMatch`). Neither
method has a `modifies` clause, so neither can change the arrays it is given.
The thrown exception becomes the `Err` case of an `Outcome` datatype. Strings
are `seq<char>` compared with `==`, which is exact and case-sensitive like
`String.equals`.

## Model

| member | source | states |
|---|---|---|
| Problem2.Top | src/Problem2.java:11-18 | The result is the start candidate or an index of at least 1. It is a valid index. It is at least the start candidate's score and every score from index 1 on. If it differs from the start candidate, it strictly beats that candidate and every examined index before it. From candidate 0 it is the first maximum of the whole array. |
| Problem2.TopFromZero | src/Problem2.java:7-15 | From candidate 0, the scan's outcome is exactly the first index holding the maximum (both directions). |
| Problem2.TopUnique | src/Problem2.java:9-18 | Scores and start candidate fix the result, so the two calls in `run` agree and `names` has no influence. |
| Problem2.FirstMaxUnique | src/Problem2.java:12-15 | At most one index is the lowest index holding the maximum. |
| Problem2.DatasetFirstMax | src/Problem2.java:4-5 | For the fixed scores 12, 22, 18, 31, 15, the first maximum is index 3. |
| Problem2.Run | src/Problem2.java:3-10 | The program's two calls of `top` from candidate 0 select name "Lila" and score 31. |
| Problem10.Place | src/Problem10.java:12-19 | The search succeeds exactly when `wanted` occurs in the array. On success the index holds `wanted` and no earlier index does. On failure the message is "Item not found". |
| Problem10.FirstMatchUnique | src/Problem10.java:13-16 | At most one index is the first exact match, so repeated lookups agree. |
| Problem10.FirstMatchExists | src/Problem10.java:13-18 | A first match exists exactly when `wanted` occurs in the items, which is when `place` does not throw. |
| Problem10.FirstMatchBelow | src/Problem10.java:13-16 | Any index holding `wanted` has the first match at or before it. |
| Problem10.Run | src/Problem10.java:3-11 | The lookup on the fixed items succeeds exactly for the four listed names. It yields each one's own cost, for example 0.99 for "Eraser". It fails with "Item not found" for "Stapler" and for "pen". |

## Left out

- Console I/O: the `readLine("What: ")` prompt, `print`, the output string built as name, space and score, and the `ConsoleProgram` base class. `Problem10.Run` takes the line it would read as a parameter. The two `Run` methods return the printed values instead of printing them.
- Problem10.Run: the `double` costs are modelled as whole hundredths (1.25 as 125), so floating point and the printed decimal format are not modelled.
- Problem2.Top: requires `0 <= highest < scores.Length`. In Java, an array of length 0 or 1 returns any `highest` unchanged, because the loop never runs. A longer array with an out-of-range `highest` throws `ArrayIndexOutOfBoundsException`. Neither case arises from `run`, which passes 0 on a five-element array.
- The unused local `name` in `Problem2.run` has no behaviour and is not modelled.
- Neither routine checks that the parallel arrays have equal length. The model adds no such check. In both `Run` methods the fixed arrays have equal length, and every index used is proved in range.
- The exception type `IllegalArgumentException` and how it propagates to the program boundary are not modelled. Only its message is kept, in the `Err` case.
