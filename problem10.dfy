/**
 * The price-lookup exercise: `place` scans an item array from the front and
 * returns the first index whose name equals the wanted one exactly; when
 * there is none it fails with "Item not found".
 */
module Problem10 {

  /** The outcome of a lookup: a value, or the failure `place` throws. */
  datatype Outcome<T> = Ok(value: T) | Err(message: string)

  /** The message carried by the exception `place` throws on a miss. */
  const NotFoundMessage: string := "Item not found"

  /** `i` is the first index of `items` holding exactly `wanted`. */
  ghost predicate IsFirstMatch(items: seq<string>, wanted: string, i: int)
  {
    && 0 <= i < |items|
    && items[i] == wanted
    && (forall j :: 0 <= j < i ==> items[j] != wanted)
  }

  /**
   * The first-match search. Equality is exact (case-sensitive, no trimming).
   * The array is not written: the method has no `modifies` clause.
   */
  method Place(items: array<string>, wanted: string) returns (r: Outcome<nat>)
    ensures r.Ok? <==> wanted in items[..]
    ensures r.Ok? ==> IsFirstMatch(items[..], wanted, r.value)
    ensures r.Err? ==> r.message == NotFoundMessage
  {
    var i := 0;
    while i < items.Length
      invariant 0 <= i <= items.Length
      invariant forall j :: 0 <= j < i ==> items[j] != wanted
    {
      if items[i] == wanted {
        return Ok(i);
      }
      i := i + 1;
    }
    return Err(NotFoundMessage);
  }

  /** The first match is unique, so a lookup is determined by its inputs. */
  lemma FirstMatchUnique(items: seq<string>, wanted: string, i1: int, i2: int)
    requires IsFirstMatch(items, wanted, i1) && IsFirstMatch(items, wanted, i2)
    ensures i1 == i2
  {
  }

  /** A match exists exactly when `wanted` occurs among the items. */
  lemma FirstMatchExists(items: seq<string>, wanted: string)
    ensures (exists i :: IsFirstMatch(items, wanted, i)) <==> wanted in items
  {
    if wanted in items {
      var k :| 0 <= k < |items| && items[k] == wanted;
      FirstMatchBelow(items, wanted, k);
    }
  }

  /** Any index holding `wanted` has a first match at or before it. */
  lemma {:induction false} FirstMatchBelow(items: seq<string>, wanted: string, k: int)
    requires 0 <= k < |items| && items[k] == wanted
    ensures exists i :: 0 <= i <= k && IsFirstMatch(items, wanted, i)
  {
    if exists j :: 0 <= j < k && items[j] == wanted {
      var j :| 0 <= j < k && items[j] == wanted;
      FirstMatchBelow(items, wanted, j);
    } else {
      assert IsFirstMatch(items, wanted, k);
    }
  }

  /**
   * The program's `run`: it looks `wanted` up in its fixed item list and
   * yields the cost at that index, or fails as `place` does. Reading the
   * line and printing are not modelled; costs are in hundredths.
   */
  method Run(wanted: string) returns (r: Outcome<nat>)
    ensures r.Ok? <==> wanted in ["Pen", "Notebook", "Eraser", "Pencil"]
    ensures r.Err? ==> r.message == NotFoundMessage
    ensures wanted == "Pen" ==> r == Ok(125)
    ensures wanted == "Notebook" ==> r == Ok(350)
    ensures wanted == "Eraser" ==> r == Ok(99)
    ensures wanted == "Pencil" ==> r == Ok(75)
    ensures wanted == "pen" ==> r == Err(NotFoundMessage)
    ensures wanted == "Stapler" ==> r == Err(NotFoundMessage)
  {
    var items := new string[4]["Pen", "Notebook", "Eraser", "Pencil"];
    var costs := new nat[4][125, 350, 99, 75];
    assert items[..] == ["Pen", "Notebook", "Eraser", "Pencil"];
    var at := Place(items, wanted);
    match at {
      case Ok(i) => r := Ok(costs[i]);
      case Err(message) => r := Err(message);
    }
  }
}
