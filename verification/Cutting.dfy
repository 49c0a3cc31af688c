/**
 Cutting a byte stream into items, in one pass or as it arrives in pieces.

 A cutter looks at the bytes from the start of an item on.  It waits for more, halts for
 good, or takes an item of some size.  All stream processors of the bridge are cutters:
 the parser of client frames, the reader of server frames and the framing functions.
 */
module Cutting {
  import opened Bytes

  datatype Cut<T, E> = Wait | Halt(reason: E) | Take(item: T, size: nat)

  /** The end of a pass: bytes to be completed by more, or a halt. */
  datatype End<E> = Rest(bytes: bytes) | Halted(reason: E)

  datatype Cuts<T, E> = Cuts(items: seq<T>, end: End<E>)

  type Cutter<!T, !E> = bytes -> Cut<T, E>

  /** The one-pass cutting of a stream. */
  function CutAll<T, E>(f: Cutter<T, E>, s: bytes): Cuts<T, E>
    decreases |s|
  {
    match f(s)
    case Wait => Cuts([], Rest(s))
    case Halt(reason) => Cuts([], Halted(reason))
    case Take(item, size) =>
      if 0 < size <= |s| then
        var c := CutAll(f, s[size..]);
        Cuts([item] + c.items, c.end)
      else Cuts([], Rest(s))
  }

  /** Items have a size and lie within the bytes seen; what was decided stays decided. */
  ghost predicate Stable<T(!new), E(!new)>(f: Cutter<T, E>) {
    && (forall s :: f(s).Take? ==> 0 < f(s).size <= |s|)
    && (forall s, t {:trigger f(s + t)} :: !f(s).Wait? ==> f(s + t) == f(s))
  }

  function Prepend<T, E>(items: seq<T>, c: Cuts<T, E>): Cuts<T, E> {
    Cuts(items + c.items, c.end)
  }

  /** Cutting can be interrupted anywhere and resumed on the bytes left over. */
  lemma {:induction false} CutAppend<T(!new), E(!new)>(f: Cutter<T, E>, a: bytes, b: bytes)
    requires Stable(f)
    ensures CutAll(f, a + b)
         == match CutAll(f, a).end
            case Rest(r) => Prepend(CutAll(f, a).items, CutAll(f, r + b))
            case Halted(_) => CutAll(f, a)
    decreases |a|
  {
    match f(a)
    case Wait => assert [] + CutAll(f, a + b).items == CutAll(f, a + b).items;
    case Halt(reason) => assert f(a + b) == f(a);
    case Take(item, size) =>
      assert f(a + b) == f(a);
      assert (a + b)[size..] == a[size..] + b;
      CutAppend(f, a[size..], b);
      var c := CutAll(f, a[size..]);
      if c.end.Rest? {
        var d := CutAll(f, c.end.bytes + b);
        assert [item] + (c.items + d.items) == ([item] + c.items) + d.items;
      }
  }

  /** What is left over is a suffix of the stream that the cutter waits on. */
  lemma {:induction false} CutRest<T(!new), E(!new)>(f: Cutter<T, E>, s: bytes)
    requires Stable(f) && CutAll(f, s).end.Rest?
    ensures f(CutAll(f, s).end.bytes).Wait?
    ensures |CutAll(f, s).end.bytes| <= |s|
    ensures CutAll(f, s).end.bytes == s[|s| - |CutAll(f, s).end.bytes|..]
    decreases |s|
  {
    if f(s).Take? {
      CutRest(f, s[f(s).size..]);
    }
  }

  /** A cutter waits on a proper part of an item. */
  lemma PartWaits<T(!new), E(!new)>(f: Cutter<T, E>, part: bytes, more: bytes)
    requires Stable(f) && f(part + more).Take? && f(part + more).size > |part|
    ensures f(part).Wait?
  {
    assert f(part).Wait? || f(part + more) == f(part);
  }

  /** The stream arrives in pieces; nothing more is read after a halt. */
  function CutPieces<T, E>(f: Cutter<T, E>, end: End<E>, pieces: seq<bytes>): Cuts<T, E>
    decreases |pieces|
  {
    if end.Halted? || pieces == [] then Cuts([], end)
    else
      var c := CutAll(f, end.bytes + pieces[0]);
      Prepend(c.items, CutPieces(f, c.end, pieces[1..]))
  }

  /** However the stream is cut into pieces, the items and the end are those of one pass. */
  lemma {:induction false} PiecesDoNotMatter<T(!new), E(!new)>(f: Cutter<T, E>, rest: bytes, pieces: seq<bytes>)
    requires Stable(f) && f(rest).Wait?
    ensures CutPieces(f, Rest(rest), pieces) == CutAll(f, rest + Concat(pieces))
    decreases |pieces|
  {
    if pieces == [] {
      assert rest + Concat(pieces) == rest;
    } else {
      var c := CutAll(f, rest + pieces[0]);
      assert rest + Concat(pieces) == (rest + pieces[0]) + Concat(pieces[1..]);
      CutAppend(f, rest + pieces[0], Concat(pieces[1..]));
      if c.end.Rest? {
        CutRest(f, rest + pieces[0]);
        PiecesDoNotMatter(f, c.end.bytes, pieces[1..]);
      } else {
        assert Prepend(c.items, Cuts([], c.end)) == c;
      }
    }
  }

  /** A printer for a cutter: every printed item is taken as a whole, whatever follows it. */
  ghost predicate Prints<T(!new), E(!new)>(f: Cutter<T, E>, write: T -> bytes, item: T) {
    forall rest {:trigger f(write(item) + rest)} ::
      f(write(item) + rest) == Take(item, |write(item)|) && |write(item)| > 0
  }

  function PrintAll<T>(write: T -> bytes, items: seq<T>): bytes {
    if items == [] then [] else write(items[0]) + PrintAll(write, items[1..])
  }

  lemma {:induction false} PrintAppend<T>(write: T -> bytes, a: seq<T>, b: seq<T>)
    ensures PrintAll(write, a + b) == PrintAll(write, a) + PrintAll(write, b)
  {
    if a == [] {
      assert a + b == b;
    } else {
      PrintAppend(write, a[1..], b);
      assert (a + b)[1..] == a[1..] + b;
    }
  }

  lemma CutOne<T, E>(f: Cutter<T, E>, item: T, text: bytes, tail: bytes)
    requires f(text + tail) == Take(item, |text|) && text != []
    ensures CutAll(f, text + tail) == Prepend([item], CutAll(f, tail))
  {
    assert (text + tail)[|text|..] == tail;
  }

  lemma HeadThenRest<T>(items: seq<T>, more: seq<T>)
    requires items != []
    ensures items + more == [items[0]] + (items[1..] + more)
  {
  }

  /** Printed items are cut out again one by one, and cutting goes on behind them. */
  lemma {:induction false} PrintedIsCut<T(!new), E(!new)>(f: Cutter<T, E>, write: T -> bytes, items: seq<T>,
                                                          rest: bytes)
    requires forall i :: 0 <= i < |items| ==> Prints(f, write, items[i])
    ensures CutAll(f, PrintAll(write, items) + rest) == Prepend(items, CutAll(f, rest))
  {
    var c := CutAll(f, rest);
    if items == [] {
      assert PrintAll(write, items) + rest == rest;
      assert items + c.items == c.items;
    } else {
      var text, tail := write(items[0]), PrintAll(write, items[1..]) + rest;
      assert Prints(f, write, items[0]);
      assert PrintAll(write, items) + rest == text + tail;
      PrintedIsCut(f, write, items[1..], rest);
      CutOne(f, items[0], text, tail);
      HeadThenRest(items, c.items);
    }
  }
}
