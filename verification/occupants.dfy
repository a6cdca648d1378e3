/** The occupants of one room. The server keeps them in a JavaScript `Set`,
    which has no duplicates and iterates in insertion order; the code picks
    "the other" and "the remaining" client by spreading the set into an
    array. So the model is a duplicate-free sequence in insertion order. */
module Occupants {
  import opened Wrappers

  /** Identity of one live web-socket connection. */
  datatype Conn = Conn(id: nat)

  /** No connection occurs twice: the shape of a `Set` iterated as an array. */
  predicate NoDup(occ: seq<Conn>) {
    forall i, j :: 0 <= i < j < |occ| ==> occ[i] != occ[j]
  }

  /** Position of the first occurrence of `c`, or `|occ|` when it is absent. */
  function IndexOf(occ: seq<Conn>, c: Conn): (i: nat)
    ensures i <= |occ|
    ensures i < |occ| <==> c in occ
    ensures i < |occ| ==> occ[i] == c
    ensures forall j :: 0 <= j < i ==> occ[j] != c
  {
    if |occ| == 0 then 0
    else if occ[0] == c then 0
    else 1 + IndexOf(occ[1..], c)
  }

  /** Position of the first element other than `ws`, or `|occ|` when every
      element is `ws`. */
  function IndexOfOther(occ: seq<Conn>, ws: Conn): (i: nat)
    ensures i <= |occ|
    ensures i < |occ| ==> occ[i] != ws
    ensures forall j :: 0 <= j < i ==> occ[j] == ws
  {
    if |occ| == 0 then 0
    else if occ[0] != ws then 0
    else 1 + IndexOfOther(occ[1..], ws)
  }

  /** `Set.prototype.add`: appends `c` unless it is already present. */
  function Add(occ: seq<Conn>, c: Conn): (r: seq<Conn>)
    ensures c in r
    ensures forall x :: x in r <==> x in occ || x == c
    ensures |occ| <= |r| && r[..|occ|] == occ
    ensures |r| == if c in occ then |occ| else |occ| + 1
    ensures NoDup(occ) ==> NoDup(r)
  {
    if c in occ then occ else occ + [c]
  }

  /** `Set.prototype.delete`: removes `c` where it stands and keeps the order
      of the rest. */
  function Delete(occ: seq<Conn>, c: Conn): (r: seq<Conn>)
    ensures NoDup(occ) ==> c !in r
    ensures forall x :: x != c ==> (x in r <==> x in occ)
    ensures |r| == if c in occ then |occ| - 1 else |occ|
    ensures NoDup(occ) ==> NoDup(r)
    ensures NoDup(occ) ==> forall i, j :: 0 <= i < j < |r| ==> IndexOf(occ, r[i]) < IndexOf(occ, r[j])
  {
    var i := IndexOf(occ, c);
    if i == |occ| then occ
    else
      RemoveAtFacts(occ, i);
      occ[..i] + occ[i+1..]
  }

  /** Cutting out position `i` shifts the later elements down by one, keeps
      every other element, and keeps the order and distinctness of the
      rest. */
  lemma RemoveAtFacts(occ: seq<Conn>, i: nat)
    requires i < |occ|
    ensures var r := occ[..i] + occ[i+1..];
      && |r| == |occ| - 1
      && (forall x :: x != occ[i] ==> (x in r <==> x in occ))
      && (NoDup(occ) ==> occ[i] !in r && NoDup(r))
      && (NoDup(occ) ==> forall p, q :: 0 <= p < q < |r| ==> IndexOf(occ, r[p]) < IndexOf(occ, r[q]))
  {
    RemoveAtShifts(occ, i);
    RemoveAtMembers(occ, i);
    if NoDup(occ) {
      RemoveAtOrder(occ, i);
    }
  }

  lemma RemoveAtShifts(occ: seq<Conn>, i: nat)
    requires i < |occ|
    ensures var r := occ[..i] + occ[i+1..];
      && |r| == |occ| - 1
      && forall p :: 0 <= p < |r| ==> r[p] == occ[Shift(p, i)]
  {
  }

  /** Where position `p` of the shortened sequence came from. */
  function Shift(p: nat, i: nat): nat {
    if p < i then p else p + 1
  }

  lemma RemoveAtMembers(occ: seq<Conn>, i: nat)
    requires i < |occ|
    ensures var r := occ[..i] + occ[i+1..];
      forall x :: x != occ[i] ==> (x in r <==> x in occ)
  {
    var r := occ[..i] + occ[i+1..];
    RemoveAtShifts(occ, i);
    forall x | x != occ[i] && x in occ
      ensures x in r
    {
      var k :| 0 <= k < |occ| && occ[k] == x;
      var p := if k < i then k else k - 1;
      assert Shift(p, i) == k;
      assert r[p] == x;
    }
  }

  lemma RemoveAtOrder(occ: seq<Conn>, i: nat)
    requires i < |occ| && NoDup(occ)
    ensures var r := occ[..i] + occ[i+1..];
      && occ[i] !in r
      && NoDup(r)
      && forall p, q :: 0 <= p < q < |r| ==> IndexOf(occ, r[p]) < IndexOf(occ, r[q])
  {
    var r := occ[..i] + occ[i+1..];
    RemoveAtShifts(occ, i);
    forall p | 0 <= p < |r|
      ensures IndexOf(occ, r[p]) == Shift(p, i)
    {
      assert occ[Shift(p, i)] == r[p];
    }
  }

  /** `const [first] = [...set]`: the first-inserted element, if any. */
  function First(occ: seq<Conn>): Option<Conn> {
    if |occ| == 0 then None else Some(occ[0])
  }

  /** `const [other] = [...set].filter(c => c !== ws)`: the first element
      other than `ws`, if any. */
  function FirstOther(occ: seq<Conn>, ws: Conn): (r: Option<Conn>)
    ensures r.None? <==> forall x :: x in occ ==> x == ws
    ensures r.Some? ==> r.value in occ && r.value != ws
    ensures r.Some? <==> IndexOfOther(occ, ws) < |occ|
    ensures r.Some? ==> r.value == occ[IndexOfOther(occ, ws)]
  {
    var i := IndexOfOther(occ, ws);
    if i < |occ| then
      assert occ[i] in occ;
      Some(occ[i])
    else None
  }

  /** In a room of two, the other occupant is the one that is not `ws`. */
  lemma FirstOtherOfPair(a: Conn, b: Conn)
    requires a != b
    ensures FirstOther([a, b], a) == Some(b)
    ensures FirstOther([a, b], b) == Some(a)
  {
    assert IndexOfOther([a, b], a) == 1 by {
      assert [a, b][1..] == [b];
    }
  }

  /** Adding a connection never changes who "the other" one is. */
  lemma {:induction false} FirstOtherAfterAdd(occ: seq<Conn>, ws: Conn)
    ensures FirstOther(Add(occ, ws), ws) == FirstOther(occ, ws)
  {
    if ws !in occ {
      IndexOfOtherAppendSelf(occ, ws);
    }
  }

  lemma {:induction false} IndexOfOtherAppendSelf(occ: seq<Conn>, ws: Conn)
    ensures IndexOfOther(occ + [ws], ws) ==
      if IndexOfOther(occ, ws) < |occ| then IndexOfOther(occ, ws) else |occ| + 1
  {
    if |occ| > 0 {
      assert (occ + [ws])[1..] == occ[1..] + [ws];
      IndexOfOtherAppendSelf(occ[1..], ws);
    } else {
      assert (occ + [ws])[1..] == [];
    }
  }

  /** Deleting what was just added restores the occupants: join followed by
      leave is a round trip on the room. */
  lemma DeleteAfterAdd(occ: seq<Conn>, c: Conn)
    requires c !in occ
    ensures Delete(Add(occ, c), c) == occ
  {
    var r := occ + [c];
    assert IndexOf(r, c) == |occ| by {
      IndexOfAppend(occ, c);
    }
    assert r[..|occ|] == occ;
  }

  lemma {:induction false} IndexOfAppend(occ: seq<Conn>, c: Conn)
    requires c !in occ
    ensures IndexOf(occ + [c], c) == |occ|
  {
    if |occ| > 0 {
      assert (occ + [c])[1..] == occ[1..] + [c];
      IndexOfAppend(occ[1..], c);
    }
  }

  /** Deleting from a two-element room leaves exactly the other element. */
  lemma DeleteFromPair(a: Conn, b: Conn)
    requires a != b
    ensures Delete([a, b], a) == [b]
    ensures Delete([a, b], b) == [a]
  {
    assert IndexOf([a, b], a) == 0;
    assert IndexOf([a, b], b) == 1 by {
      assert [a, b][1..] == [b];
    }
  }
}
