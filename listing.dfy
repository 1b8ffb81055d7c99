/** The list of walks shown to the user (`visible`): a copy of the walk list
    sorted by start time with a comparator on the start timestamps. The
    sort of the host language is stable, so walks that start at the same
    time keep their order. */
module Listing {
  import opened WalkTypes

  /** Every walk starts no earlier than the walks before it. */
  predicate SortedByStart(s: seq<Walk>)
  {
    forall i, j :: 0 <= i < j < |s| ==> s[i].startISO <= s[j].startISO
  }

  /** The walks of `s` that start at time `t`, in their order in `s`. */
  function StartingAt(s: seq<Walk>, t: int): seq<Walk>
  {
    if s == [] then []
    else (if s[0].startISO == t then [s[0]] else []) + StartingAt(s[1..], t)
  }

  /** Puts `x` in front of the first walk of `s` that starts no earlier. */
  function Insert(x: Walk, s: seq<Walk>): (r: seq<Walk>)
    ensures |r| == |s| + 1 && x in r
    ensures forall y :: y in s ==> y in r
  {
    if s == [] || x.startISO <= s[0].startISO then [x] + s
    else [s[0]] + Insert(x, s[1..])
  }

  /** The walk list sorted by start time, stably (see SortByStartCorrect). */
  function SortByStart(ws: seq<Walk>): (r: seq<Walk>)
    ensures |r| == |ws|
    ensures forall w :: w in ws ==> w in r
  {
    if ws == [] then [] else Insert(ws[0], SortByStart(ws[1..]))
  }

  lemma {:induction false} InsertPermutes(x: Walk, s: seq<Walk>)
    ensures multiset(Insert(x, s)) == multiset(s) + multiset{x}
  {
    if s != [] && x.startISO > s[0].startISO {
      InsertPermutes(x, s[1..]);
      assert s == [s[0]] + s[1..];
    }
  }

  /** Putting in front of a sorted list a walk that starts no later than
      any of its walks gives a sorted list. */
  lemma ConsSorted(a: Walk, r: seq<Walk>)
    requires SortedByStart(r)
    requires forall i :: 0 <= i < |r| ==> a.startISO <= r[i].startISO
    ensures SortedByStart([a] + r)
  {
    var r' := [a] + r;
    forall i, j | 0 <= i < j < |r'|
      ensures r'[i].startISO <= r'[j].startISO
    {
      assert r'[j] == r[j - 1];
      if i > 0 { assert r'[i] == r[i - 1]; }
    }
  }

  /** A bound below `x` and below every walk of `s` is below every walk of
      `Insert(x, s)`. */
  lemma {:induction false} InsertLowerBound(x: Walk, s: seq<Walk>, b: int)
    requires b <= x.startISO
    requires forall i :: 0 <= i < |s| ==> b <= s[i].startISO
    ensures |Insert(x, s)| == |s| + 1
    ensures forall i :: 0 <= i < |Insert(x, s)| ==> b <= Insert(x, s)[i].startISO
  {
    if s != [] && x.startISO > s[0].startISO {
      InsertLowerBound(x, s[1..], b);
      var r := Insert(x, s[1..]);
      forall i | 0 <= i < |Insert(x, s)|
        ensures b <= Insert(x, s)[i].startISO
      {
        if i > 0 { assert Insert(x, s)[i] == r[i - 1]; }
      }
    }
  }

  lemma {:induction false} InsertSorted(x: Walk, s: seq<Walk>)
    requires SortedByStart(s)
    ensures SortedByStart(Insert(x, s))
  {
    if s == [] || x.startISO <= s[0].startISO {
      ConsSorted(x, s);
    } else {
      var rest := s[1..];
      assert SortedByStart(rest) by {
        forall i, j | 0 <= i < j < |rest| ensures rest[i].startISO <= rest[j].startISO {
          assert rest[i] == s[i + 1] && rest[j] == s[j + 1];
        }
      }
      InsertSorted(x, rest);
      forall i | 0 <= i < |rest| ensures s[0].startISO <= rest[i].startISO {
        assert rest[i] == s[i + 1];
      }
      InsertLowerBound(x, rest, s[0].startISO);
      ConsSorted(s[0], Insert(x, rest));
    }
  }

  lemma StartingAtCons(a: Walk, r: seq<Walk>, t: int)
    ensures StartingAt([a] + r, t) == (if a.startISO == t then [a] else []) + StartingAt(r, t)
  {
    assert ([a] + r)[0] == a && ([a] + r)[1..] == r;
  }

  /** Inserting `x` puts it ahead of every walk of `s` with the same start
      and behind none of them. */
  lemma {:induction false} InsertStable(x: Walk, s: seq<Walk>, t: int)
    ensures StartingAt(Insert(x, s), t) == (if x.startISO == t then [x] else []) + StartingAt(s, t)
  {
    var hx: seq<Walk> := if x.startISO == t then [x] else [];
    if s == [] || x.startISO <= s[0].startISO {
      StartingAtCons(x, s, t);
    } else {
      var h0: seq<Walk> := if s[0].startISO == t then [s[0]] else [];
      assert h0 == [] || hx == [];
      calc {
        StartingAt(Insert(x, s), t);
        { StartingAtCons(s[0], Insert(x, s[1..]), t); }
        h0 + StartingAt(Insert(x, s[1..]), t);
        { InsertStable(x, s[1..], t); }
        h0 + (hx + StartingAt(s[1..], t));
        hx + (h0 + StartingAt(s[1..], t));
        { StartingAtCons(s[0], s[1..], t); assert [s[0]] + s[1..] == s; }
        hx + StartingAt(s, t);
      }
    }
  }

  /** `visible` holds exactly the walks of the list, ordered by start time,
      and walks starting at the same time appear in list order. */
  lemma {:induction false} SortByStartCorrect(ws: seq<Walk>)
    ensures var r := SortByStart(ws);
      && SortedByStart(r)
      && multiset(r) == multiset(ws)
      && forall t :: StartingAt(r, t) == StartingAt(ws, t)
  {
    if ws != [] {
      SortByStartCorrect(ws[1..]);
      var sorted := SortByStart(ws[1..]);
      InsertSorted(ws[0], sorted);
      InsertPermutes(ws[0], sorted);
      assert ws == [ws[0]] + ws[1..];
      forall t
        ensures StartingAt(SortByStart(ws), t) == StartingAt(ws, t)
      {
        InsertStable(ws[0], sorted, t);
      }
    }
  }
}
