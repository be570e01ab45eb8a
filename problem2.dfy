/**
 * The top-scorer exercise: `top` scans a score array, keeping a candidate
 * index and replacing it only by a strictly greater score, so it returns the
 * index of a maximum score and, on ties, the one met first.
 */
module Problem2 {

  /** `k` is the lowest index holding a maximum of `s`. */
  ghost predicate IsFirstMax(s: seq<int>, k: int)
  {
    && 0 <= k < |s|
    && (forall j :: 0 <= j < |s| ==> s[j] <= s[k])
    && (forall j :: 0 <= j < k ==> s[j] < s[k])
  }

  /**
   * What a scan starting from candidate `h` may return: the candidates are `h`
   * itself and the indices 1 .. |s|-1 (index 0 is only ever looked at as the
   * starting candidate). The result is `h` unless some examined index beats
   * `s[h]` strictly, in which case it is the first examined index holding the
   * maximum.
   */
  ghost predicate IsTop(s: seq<int>, h: int, r: int)
    requires 0 <= h < |s|
  {
    && (r == h || 1 <= r < |s|)
    && s[h] <= s[r]
    && (forall j :: 1 <= j < |s| ==> s[j] <= s[r])
    && (r != h ==> s[h] < s[r] && forall j :: 1 <= j < r ==> s[j] < s[r])
  }

  /**
   * The arg-max scan. `names` is taken, as in the original, but never read.
   * Arrays are not written: the method has no `modifies` clause.
   */
  method Top(names: array<string>, scores: array<int>, highest: int) returns (r: int)
    requires 0 <= highest < scores.Length
    ensures r == highest || 1 <= r < scores.Length
    ensures 0 <= r < scores.Length
    ensures IsTop(scores[..], highest, r)
    ensures highest == 0 ==> IsFirstMax(scores[..], r)
  {
    r := highest;
    var i := 1;
    while i < scores.Length
      invariant 1 <= i <= scores.Length
      invariant r == highest || 1 <= r < i
      invariant scores[highest] <= scores[r]
      invariant forall j :: 1 <= j < i ==> scores[j] <= scores[r]
      invariant r != highest ==> scores[highest] < scores[r] && forall j :: 1 <= j < r ==> scores[j] < scores[r]
    {
      if scores[i] > scores[r] {
        r := i;
      }
      i := i + 1;
    }
    if highest == 0 {
      TopFromZero(scores[..], r);
    }
  }

  /** From candidate 0 the scan's result is exactly the first maximum. */
  lemma TopFromZero(s: seq<int>, r: int)
    requires |s| > 0
    ensures IsTop(s, 0, r) <==> IsFirstMax(s, r)
  {
  }

  /**
   * The scan's result is determined by the scores and the starting candidate
   * alone, so two calls with the same arguments agree and `names` has no say.
   */
  lemma TopUnique(s: seq<int>, h: int, r1: int, r2: int)
    requires 0 <= h < |s|
    requires IsTop(s, h, r1) && IsTop(s, h, r2)
    ensures r1 == r2
  {
  }

  /** A first maximum is unique. */
  lemma FirstMaxUnique(s: seq<int>, k1: int, k2: int)
    requires IsFirstMax(s, k1) && IsFirstMax(s, k2)
    ensures k1 == k2
  {
    // both hold a maximum, so neither can lie strictly before the other
    assert s[k1] <= s[k2] && s[k2] <= s[k1];
  }

  /** The fixed dataset of the program: its first maximum is at index 3. */
  lemma DatasetFirstMax(k: int)
    requires IsFirstMax([12, 22, 18, 31, 15], k)
    ensures k == 3
  {
    var s := [12, 22, 18, 31, 15];
    assert s[3] <= s[k];
  }

  /**
   * The program's `run`: it calls `top` twice from candidate 0 on its fixed
   * dataset and prints the name of the first result and the score of the
   * second. Printing is not modelled; the two printed values are returned.
   */
  method Run() returns (name: string, score: int)
    ensures name == "Lila" && score == 31
  {
    var names := new string[5]["Ana", "Ben", "Ming", "Lila", "Kai"];
    var scores := new int[5][12, 22, 18, 31, 15];
    var highest := 0;
    var first := Top(names, scores, highest);
    var second := Top(names, scores, highest);
    assert scores[..] == [12, 22, 18, 31, 15];
    DatasetFirstMax(first);
    DatasetFirstMax(second);
    name := names[first];
    score := scores[second];
  }
}
