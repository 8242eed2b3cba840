/** ListIterator: a cursor over a doubly linked GList that walks it from
    the head to the tail, or from the tail to the head, and can take a
    private copy of the list ("freeze") so that changes the caller makes to
    its own list no longer reach the iterator.

    A GList is modelled as a heap object holding the sequence of its
    elements; a pointer to one of its nodes is an index into that sequence,
    and an index outside the sequence stands for NULL. */
module ListIterators {

  /** A GList the caller owns and may change while an iterator holds it. */
  class GList<T> {
    var elems: seq<T>

    constructor (elems: seq<T>)
      ensures this.elems == elems
    {
      this.elems := elems;
    }
  }

  /** The elements of `s` from last to first. */
  function Reversed<T>(s: seq<T>): seq<T>
  {
    seq(|s|, i requires 0 <= i < |s| => s[|s| - 1 - i])
  }

  /** Reversing twice gives the list back. */
  lemma ReversedTwice<T>(s: seq<T>)
    ensures Reversed(Reversed(s)) == s
  {
    var r := Reversed(s);
    assert forall i :: 0 <= i < |s| ==> Reversed(r)[i] == r[|s| - 1 - i] == s[i];
  }

  /** Walking back from the node at `c` yields that node, then the walk
      back from the node before it. */
  lemma ReversedPrefixStep<T>(s: seq<T>, c: int)
    requires 0 <= c < |s|
    ensures Reversed(s[..c + 1]) == [s[c]] + Reversed(s[..c])
  {
    var l, r := Reversed(s[..c + 1]), [s[c]] + Reversed(s[..c]);
    assert forall i :: 0 < i <= c ==> l[i] == s[c - i] == r[i];
  }

  class ListIterator<T> {
    /** The list `data` points into: the caller's list, or the private copy
        freeze takes. */
    var list: GList<T>
    /** The node `data` points at, as an index into list.elems; any index
        outside list.elems is NULL. */
    var cursor: int
    const reverse: bool
    var copied: bool

    /** What the remaining next() calls return, in order. */
    ghost function Remaining(): seq<T>
      reads this, list
    {
      var s := list.elems;
      if !(0 <= cursor < |s|) then []
      else if reverse then Reversed(s[..cursor + 1])
      else s[cursor..]
    }

    /** A forward iterator starts at the head, a reverse one at the last
        node; either yields the whole list. */
    constructor (data: GList<T>, reverse: bool)
      ensures list == data && this.reverse == reverse && !copied
      ensures Remaining() == if reverse then Reversed(data.elems) else data.elems
    {
      list := data;
      cursor := if reverse then |data.elems| - 1 else 0;
      this.reverse := reverse;
      copied := false;
      assert data.elems[..|data.elems|] == data.elems;
    }

    /** True exactly when another next() has an element to return. */
    function HasNext(): (r: bool)
      reads this, list
      ensures r <==> Remaining() != []
    {
      0 <= cursor < |list.elems|
    }

    /** Returns the current element and steps to the next node, or to the
        previous one for a reverse iterator. The node is dereferenced
        unconditionally, so there must be one. */
    method Next() returns (d: T)
      requires HasNext()
      modifies this`cursor
      ensures old(Remaining()) == [d] + Remaining()
    {
      var s := list.elems;
      d := s[cursor];
      if reverse {
        ReversedPrefixStep(s, cursor);
        cursor := cursor - 1;
      } else {
        assert s[cursor..][1..] == s[cursor + 1..];
        cursor := cursor + 1;
      }
    }

    /** freeze as written: the copy starts at the current node and runs
        forward to the tail, and the cursor moves to its head. A second
        call changes nothing. A forward iterator keeps what it had left;
        a reverse one is left with only its current element, because the
        copy has no nodes before it. */
    method Freeze()
      modifies this`list, this`cursor, this`copied
      ensures copied
      ensures old(copied) ==> list == old(list) && cursor == old(cursor)
      ensures !old(copied) ==> fresh(list) && cursor == 0
      ensures !old(copied) ==>
                list.elems == if 0 <= old(cursor) < |old(list.elems)| then old(list.elems)[old(cursor)..] else []
      ensures !old(copied) && !reverse ==> Remaining() == old(Remaining())
      ensures !old(copied) && reverse ==>
                Remaining() == if old(HasNext()) then [old(Remaining())[0]] else []
    {
      if copied {
        return;
      }
      copied := true;
      var s := list.elems;
      var c := cursor;
      if 0 <= c < |s| {
        assert s[c..][..1] == [s[c]];
      }
      list := new GList(if 0 <= c < |s| then s[c..] else []);
      cursor := 0;
    }

    /** freeze as intended: copy the whole list and keep the cursor on the
        same position of the copy, so both directions keep exactly what
        they had left. A second call changes nothing. */
    method FreezeCorrected()
      modifies this`list, this`copied
      ensures copied
      ensures Remaining() == old(Remaining())
      ensures old(copied) ==> list == old(list)
      ensures !old(copied) ==> fresh(list) && list.elems == old(list.elems)
    {
      if copied {
        return;
      }
      copied := true;
      list := new GList(list.elems);
    }
  }

  /** The usual client loop: call next() while hasNext() holds. It collects
      what the iterator had left and leaves it exhausted. */
  method Drain<T>(it: ListIterator<T>) returns (out: seq<T>)
    modifies it`cursor
    ensures out == old(it.Remaining())
    ensures !it.HasNext()
  {
    ghost var all := it.Remaining();
    out := [];
    while it.HasNext()
      invariant out + it.Remaining() == all
      decreases |it.Remaining()|
    {
      var d := it.Next();
      Regroup(out, d, it.Remaining(), all);
      out := out + [d];
    }
  }

  /** Moving the element just returned from the rest to the output keeps
      their concatenation. */
  lemma Regroup<T>(out: seq<T>, d: T, rest: seq<T>, all: seq<T>)
    requires out + ([d] + rest) == all
    ensures (out + [d]) + rest == all
  {
  }

  /** A forward iterator over `src` yields its elements in list order. */
  method IterateForward<T>(src: GList<T>) returns (out: seq<T>)
    ensures out == src.elems
  {
    var it := new ListIterator(src, false);
    out := Drain(it);
  }

  /** A reverse iterator over `src` yields its elements last to first. */
  method IterateReverse<T>(src: GList<T>) returns (out: seq<T>)
    ensures |out| == |src.elems|
    ensures forall i :: 0 <= i < |out| ==> out[i] == src.elems[|src.elems| - 1 - i]
    ensures Reversed(out) == src.elems
  {
    var it := new ListIterator(src, true);
    out := Drain(it);
    ReversedTwice(src.elems);
  }

  /** After freeze, a forward iterator over the caller's list `src`, at
      whatever point of its walk, yields what it had left at freeze time,
      whatever the caller puts into `src` afterwards. */
  method FrozenForwardIgnoresSource<T>(it: ListIterator<T>, src: GList<T>, later: seq<T>) returns (out: seq<T>)
    requires it.list == src && !it.reverse && !it.copied
    modifies it, src
    ensures out == old(it.Remaining())
  {
    it.Freeze();
    src.elems := later;
    out := Drain(it);
  }

  /** freeze as written on a fresh reverse iterator: it goes on to yield the
      last element only, where the unfrozen iterator would yield them all. */
  method FrozenReverseStopsEarly<T>(src: GList<T>) returns (out: seq<T>)
    requires |src.elems| >= 2
    ensures out == [src.elems[|src.elems| - 1]]
    ensures out != Reversed(src.elems)
  {
    var it := new ListIterator(src, true);
    it.Freeze();
    out := Drain(it);
  }

  /** The corrected freeze on a fresh reverse iterator keeps the whole walk
      from last to first. */
  method FrozenReverseKeepsAll<T>(src: GList<T>) returns (out: seq<T>)
    ensures out == Reversed(src.elems)
  {
    var it := new ListIterator(src, true);
    it.FreezeCorrected();
    out := Drain(it);
  }
}
