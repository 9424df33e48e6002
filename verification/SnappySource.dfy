/** The byte source that the Snappy routines read from, in any fragmentation. */
module SnappySource {
  import opened Bytes

  /** The fragments one after the other. */
  function Flatten(frags: seq<seq<byte>>): seq<byte> {
    if frags == [] then [] else frags[0] + Flatten(frags[1..])
  }

  lemma FlattenOne(data: seq<byte>)
    ensures Flatten([]) == [] && Flatten([data]) == data
  {
    assert [data][1..] == [];
    assert data + [] == data;
  }

  /** What a flat array looks like as a source: one region, or none. */
  function OneRegion(data: seq<byte>): (frags: seq<seq<byte>>)
    ensures Filled(frags) && Flatten(frags) == data
  {
    FlattenOne(data);
    if data == [] then [] else [data]
  }

  /** No fragment is empty: a region of no bytes is the end of the input. */
  predicate Filled(frags: seq<seq<byte>>) {
    forall i :: 0 <= i < |frags| ==> frags[i] != []
  }

  /** The fragments behind the first `n` bytes: those that are used up go, the next one is cut. */
  function Dropped(frags: seq<seq<byte>>, n: nat): seq<seq<byte>>
    requires n <= |Flatten(frags)|
    decreases |frags|
  {
    if n == 0 then frags
    else if n >= |frags[0]| then Dropped(frags[1..], n - |frags[0]|)
    else [frags[0][n..]] + frags[1..]
  }

  lemma DroppedNone(frags: seq<seq<byte>>)
    ensures Dropped(frags, 0) == frags
  {
  }

  lemma {:induction false} DroppedFlatten(frags: seq<seq<byte>>, n: nat)
    requires Filled(frags) && n <= |Flatten(frags)|
    ensures Filled(Dropped(frags, n)) && Flatten(Dropped(frags, n)) == Flatten(frags)[n..]
    decreases |frags|
  {
    if n > 0 {
      if n >= |frags[0]| {
        DroppedFlatten(frags[1..], n - |frags[0]|);
      } else {
        assert Dropped(frags, n)[1..] == frags[1..];
      }
    }
  }

  /** Dropping in two parts. */
  lemma {:induction false} DroppedTwice(frags: seq<seq<byte>>, n: nat, m: nat)
    requires Filled(frags) && n + m <= |Flatten(frags)|
    ensures m <= |Flatten(Dropped(frags, n))| && Dropped(Dropped(frags, n), m) == Dropped(frags, n + m)
    decreases |frags|
  {
    DroppedFlatten(frags, n);
    if n > 0 && m > 0 {
      if n >= |frags[0]| {
        DroppedTwice(frags[1..], n - |frags[0]|, m);
      } else {
        assert Dropped(frags, n)[1..] == frags[1..];
      }
    }
  }

  /** Dropping from the first fragment leaves the others as they are. */
  lemma DroppedFirst(frags: seq<seq<byte>>, n: nat)
    requires Filled(frags) && frags != [] && n <= |frags[0]|
    ensures n <= |Flatten(frags)| && Dropped(frags, n)
            == if n == |frags[0]| then frags[1..] else [frags[0][n..]] + frags[1..]
  {
    if n == 0 {
      assert frags == [frags[0][0..]] + frags[1..];
    }
  }

  /** A source that hands out its bytes in non-empty fragments. */
  class Source {
    var frags: seq<seq<byte>>

    constructor Fragments(frags: seq<seq<byte>>)
      requires Filled(frags)
      ensures Valid() && this.frags == frags
    {
      this.frags := frags;
    }

    /** ByteArraySource: all of a flat array at once. */
    constructor Flat(data: seq<byte>)
      ensures Valid() && Remaining() == data && frags == OneRegion(data)
    {
      frags := OneRegion(data);
    }

    ghost predicate Valid()
      reads this
    {
      Filled(frags)
    }

    ghost function Remaining(): seq<byte>
      reads this
    {
      Flatten(frags)
    }

    method Available() returns (n: nat)
      ensures n == |Remaining()|
    {
      n := 0;
      var i := 0;
      while i < |frags|
        invariant 0 <= i <= |frags| && n + |Flatten(frags[i..])| == |Flatten(frags)|
      {
        assert frags[i..][1..] == frags[i + 1..];
        n := n + |frags[i]|;
        i := i + 1;
      }
    }

    /** The next region: empty only at the end. */
    method Peek() returns (region: seq<byte>)
      requires Valid()
      ensures region <= Remaining() && (region == [] <==> Remaining() == [])
      ensures region == if frags == [] then [] else frags[0]
    {
      region := if frags == [] then [] else frags[0];
    }

    method Skip(n: nat)
      requires Valid() && n <= |Remaining()|
      modifies this
      ensures Valid() && Remaining() == old(Remaining())[n..] && frags == Dropped(old(frags), n)
    {
      DroppedFlatten(frags, n);
      var left := n;
      while left > 0 && left >= |frags[0]|
        invariant Valid() && 0 <= left <= |Remaining()| && Dropped(frags, left) == Dropped(old(frags), n)
        decreases |frags|
      {
        left := left - |frags[0]|;
        frags := frags[1..];
      }
      if left > 0 {
        frags := [frags[0][left..]] + frags[1..];
      }
    }
  }
}
