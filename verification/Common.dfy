/** Results and list facts shared by the other modules. */
module Common {

  /** libp2p's `peer.ID` is a Go string. */
  type PeerID = string

  datatype Option<+T> = None | Some(value: T)

  /** A Go `(value, error)` pair; the error text carries no information that any caller reads. */
  datatype Result<+T> = Ok(value: T) | Err

  ghost predicate Distinct<T>(s: seq<T>) {
    forall i, j | 0 <= i < j < |s| :: s[i] != s[j]
  }

  ghost function Elements<T>(s: seq<T>): set<T> {
    set x | x in s
  }

  ghost predicate Ascending(s: seq<int>) {
    forall i, j | 0 <= i < j < |s| :: s[i] < s[j]
  }

  lemma ElementsAppend<T>(s: seq<T>, x: T)
    ensures Elements(s + [x]) == Elements(s) + {x}
  {
    assert forall y :: y in s + [x] <==> y in s || y == x;
  }

  /** A list without repetitions is as long as its set of elements. */
  lemma {:induction false} DistinctSize<T>(s: seq<T>)
    ensures |Elements(s)| <= |s|
    ensures Distinct(s) <==> |Elements(s)| == |s|
  {
    if s == [] {
    } else {
      var rest := s[..|s| - 1];
      var last := s[|s| - 1];
      DistinctSize(rest);
      assert s == rest + [last];
      assert Elements(s) == Elements(rest) + {last};
      if Distinct(s) {
        assert last !in rest;
      } else if Distinct(rest) {
        assert last in rest;
        assert Elements(s) == Elements(rest);
      }
    }
  }

  /** One of the elements that a Go `range` may visit next. */
  method Pick<T>(s: set<T>) returns (x: T)
    requires s != {}
    ensures x in s
  {
    x :| x in s;
  }
}
