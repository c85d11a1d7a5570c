/** A room of the in-memory adapter: a counted set of socket ids.

    The room keeps its ids as the keys of a plain object; `Object.keys` reports
    them in insertion order, and that order is what a broadcast walks. So the
    members are a sequence without repetitions, in the order they joined. */
module Rooms {

  /** No id occurs twice, as with the keys of one object. */
  predicate Distinct(s: seq<string>) {
    forall i, j :: 0 <= i < j < |s| ==> s[i] != s[j]
  }

  /** The keys after `sockets[id] = true`: an absent id goes to the end,
      a present one keeps its place. */
  function Added(s: seq<string>, id: string): (r: seq<string>)
    ensures forall x :: x in r <==> x in s || x == id
    ensures id in s ==> r == s
    ensures id !in s ==> |r| == |s| + 1 && r[..|s|] == s
    ensures Distinct(s) ==> Distinct(r)
  {
    if id in s then s else s + [id]
  }

  /** The keys after `delete sockets[id]`: id is gone, the others keep their order. */
  function Without(s: seq<string>, id: string): (r: seq<string>)
    ensures forall x :: x in r <==> x in s && x != id
    ensures id !in s ==> r == s
  {
    if s == [] then []
    else if s[0] == id then Without(s[1..], id)
    else [s[0]] + Without(s[1..], id)
  }

  /** Deleting from a room keeps its ids distinct, and deleting a member
      shortens it by exactly one. */
  lemma {:induction false} WithoutDistinct(s: seq<string>, id: string)
    requires Distinct(s)
    ensures Distinct(Without(s, id))
    ensures id in s ==> |Without(s, id)| == |s| - 1
  {
    if s != [] {
      DistinctTail(s);
      WithoutDistinct(s[1..], id);
      if s[0] != id {
        DistinctCons(s[0], Without(s[1..], id));
      }
    }
  }

  /** The tail of a sequence without repetitions has none either, and does
      not contain the head. */
  lemma DistinctTail(s: seq<string>)
    requires s != []
    ensures Distinct(s) ==> Distinct(s[1..]) && s[0] !in s[1..]
  {
    if Distinct(s) {
      forall i, j | 0 <= i < j < |s| - 1 ensures s[1..][i] != s[1..][j] {
        assert s[1..][i] == s[i + 1] && s[1..][j] == s[j + 1];
      }
    }
  }

  /** Putting an id that does not occur in front of a sequence without
      repetitions keeps it without repetitions. */
  lemma DistinctCons(x: string, t: seq<string>)
    requires x !in t && Distinct(t)
    ensures Distinct([x] + t)
  {
    var r := [x] + t;
    forall i, j | 0 <= i < j < |r| ensures r[i] != r[j] {
      assert r[j] == t[j - 1];
      if i > 0 { assert r[i] == t[i - 1]; }
    }
  }

  /** Removing from a concatenation removes from each part. */
  lemma {:induction false} WithoutAppend(s: seq<string>, t: seq<string>, id: string)
    ensures Without(s + t, id) == Without(s, id) + Without(t, id)
  {
    if s == [] {
      assert s + t == t;
    } else {
      assert (s + t)[1..] == s[1..] + t;
      WithoutAppend(s[1..], t, id);
    }
  }

  /** Deleting an id that was just added to a room it was not in gives the
      room back exactly, order included. */
  lemma WithoutAdded(s: seq<string>, id: string)
    requires id !in s
    ensures Without(Added(s, id), id) == s
  {
    WithoutAppend(s, [id], id);
    assert Without([id], id) == Without([], id);
  }

  /** Adding twice is adding once; deleting twice is deleting once. */
  lemma AddDelIdempotent(s: seq<string>, id: string)
    ensures Added(Added(s, id), id) == Added(s, id)
    ensures Without(Without(s, id), id) == Without(s, id)
  {
  }

  /** A room as the adapter stores it: the object used as a set of ids
      (`sockets`) and the counter `length` that add and del keep in step. */
  class Room {
    /** `Object.keys(this.sockets)`, in insertion order. */
    var sockets: seq<string>
    var length: int
    /** The name the adapter stores this room under; it tells rooms apart in proofs. */
    ghost const name: string

    /** The counter equals the number of members. */
    ghost predicate Valid()
      reads this
    {
      Distinct(sockets) && length == |sockets|
    }

    constructor (ghost name: string)
      ensures Valid() && sockets == [] && length == 0 && this.name == name
    {
      this.name := name;
      sockets := [];
      length := 0;
    }

    /** Adds `id` unless it is already a member; the counter moves only on
        an actual insertion. */
    method Add(id: string)
      modifies this
      ensures sockets == Added(old(sockets), id)
      ensures length == if id in old(sockets) then old(length) else old(length) + 1
      ensures old(Valid()) ==> Valid()
    {
      if id !in sockets {
        sockets := sockets + [id];
        length := length + 1;
      }
    }

    /** Removes `id` if it is a member; the counter moves only on an actual
        removal, so it never falls below the member count. */
    method Del(id: string)
      modifies this
      ensures sockets == Without(old(sockets), id)
      ensures length == if id in old(sockets) then old(length) - 1 else old(length)
      ensures old(Valid()) ==> Valid()
    {
      if id in sockets {
        if Valid() {
          WithoutDistinct(sockets, id);
        }
        sockets := Without(sockets, id);
        length := length - 1;
      }
    }
  }
}
