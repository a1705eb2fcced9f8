/** Small shared vocabulary: optional values, results, and sequence helpers. */
module Base {

  /** `null`/`undefined` versus a present value. */
  datatype Option<+T> = None | Some(value: T) {
    function GetOr(default: T): T {
      match this
      case Some(v) => v
      case None => default
    }
  }

  /** A thrown `Error` versus a normal return. */
  datatype Result<+T, +E> = Ok(value: T) | Err(error: E)

  /** No element occurs twice. */
  predicate NoDup<T(==)>(s: seq<T>) {
    forall i, j :: 0 <= i < j < |s| ==> s[i] != s[j]
  }

  function Max(a: int, b: int): int {
    if a < b then b else a
  }

  /**
   * What is left of an array after `splice(idx, 1)`: the element at `idx`
   * is taken out; an index past the end removes nothing.
   */
  function Splice<T>(s: seq<T>, idx: nat): (r: seq<T>)
    ensures idx < |s| ==> |r| == |s| - 1
    ensures idx >= |s| ==> r == s
  {
    if idx < |s| then s[..idx] + s[idx + 1..] else s
  }

  /** Splicing only removes: whatever is left was there before. */
  lemma SpliceKeeps<T>(s: seq<T>, idx: nat)
    ensures forall x :: x in Splice(s, idx) ==> x in s
  {
    if idx < |s| {
      var r := Splice(s, idx);
      forall x | x in r ensures x in s {
        var k :| 0 <= k < |r| && r[k] == x;
        if k < idx { assert s[k] == x; } else { assert s[k + 1] == x; }
      }
    }
  }

  /** Splicing a list without repeats keeps it without repeats, and the element taken is gone. */
  lemma SpliceTakes<T>(s: seq<T>, idx: nat)
    requires NoDup(s) && idx < |s|
    ensures NoDup(Splice(s, idx)) && s[idx] !in Splice(s, idx)
  {
    var r := Splice(s, idx);
    assert forall k :: 0 <= k < |r| ==> r[k] == s[if k < idx then k else k + 1];
  }
}
