/**
 A blob whose bytes are computed from their offset, eight at a time, and served in frames:
 every way of cutting a range yields the same bytes.
 */
module RangedBlob {
  import opened MachineInts
  import opened Sequences

  /** The eight bytes of a block, computed from its number. */
  type Words = w: nat -> seq<Byte> | forall block :: |w(block)| == 8 witness (_ => [0, 0, 0, 0, 0, 0, 0, 0])

  function ByteAt(w: Words, offset: nat): Byte {
    w(offset / 8)[offset % 8]
  }

  /** The bytes `offset .. offset + len` of the blob. */
  function Content(w: Words, offset: nat, len: nat): (r: seq<Byte>)
    ensures |r| == len
  {
    seq<Byte>(len, i requires 0 <= i < len => ByteAt(w, offset + i))
  }

  /** A range is its first part followed by the rest. */
  lemma ContentSplit(w: Words, offset: nat, a: nat, b: nat)
    ensures Content(w, offset, a + b) == Content(w, offset, a) + Content(w, offset + a, b)
  {
  }

  /** Fills the buffer word by word; the first and last word may be cut. */
  method FillAt(w: Words, buf: array<Byte>, offset: nat)
    modifies buf
    ensures buf[..] == Content(w, offset, buf.Length)
  {
    var i := 0;
    while i < buf.Length
      invariant i <= buf.Length && buf[..i] == Content(w, offset, i)
    {
      var at := offset + i;
      var word, start := w(at / 8), at % 8;
      var take := if 8 - start <= buf.Length - i then 8 - start else buf.Length - i;
      WordPart(w, at, take);
      ContentSplit(w, offset, i, take);
      Copy(buf, i, word[start..start + take]);
      i := i + take;
    }
    assert buf[..i] == buf[..];
  }

  /** Copies a slice into the buffer; nothing before it changes. */
  method Copy(buf: array<Byte>, i: nat, slice: seq<Byte>)
    requires i + |slice| <= buf.Length
    modifies buf
    ensures buf[..i + |slice|] == old(buf[..i]) + slice
  {
    for k := 0 to |slice|
      invariant buf[..i + k] == old(buf[..i]) + slice[..k]
    {
      buf[i + k] := slice[k];
      SliceSnoc(slice, k);
      assert buf[..i + k + 1] == buf[..i + k] + [slice[k]];
    }
    assert slice[..|slice|] == slice;
  }

  lemma WordPart(w: Words, at: nat, take: nat)
    requires at % 8 + take <= 8
    ensures Content(w, at, take) == w(at / 8)[at % 8..at % 8 + take]
  {
    forall k | 0 <= k < take ensures Content(w, at, take)[k] == w(at / 8)[at % 8 + k] {
      SameWord(at, k);
    }
  }

  lemma SameWord(at: nat, k: nat)
    requires at % 8 + k < 8
    ensures (at + k) / 8 == at / 8 && (at + k) % 8 == at % 8 + k
  {
  }

  /** The range sent in frames of at most `frame` bytes. */
  method Serve(w: Words, start: nat, len: nat, frame: nat) returns (frames: seq<seq<Byte>>)
    requires frame > 0
    ensures Flatten(frames) == Content(w, start, len)
    ensures forall f :: f in frames ==> 0 < |f| <= frame
    ensures forall i :: 0 <= i < |frames| - 1 ==> |frames[i]| == frame
  {
    frames := [];
    var sent := 0;
    while sent < len
      invariant sent <= len && Flatten(frames) == Content(w, start, sent)
      invariant forall f :: f in frames ==> 0 < |f| <= frame
      invariant forall i :: 0 <= i < |frames| ==> |frames[i]| == frame || (i == |frames| - 1 && sent == len)
    {
      var take := if len - sent <= frame then len - sent else frame;
      var buf := new Byte[take];
      FillAt(w, buf, start + sent);
      FlattenSnoc(frames, buf[..]);
      ContentSplit(w, start, sent, take);
      frames := frames + [buf[..]];
      sent := sent + take;
    }
  }

  /** Ranges that follow each other put the blob together, whatever their sizes. */
  lemma {:induction false} RangesCover(w: Words, offset: nat, lens: seq<nat>)
    ensures Flatten(Ranges(w, offset, lens)) == Content(w, offset, Total(lens))
    decreases |lens|
  {
    if lens != [] {
      RangesCover(w, offset + lens[0], lens[1..]);
      ContentSplit(w, offset, lens[0], Total(lens[1..]));
      assert Ranges(w, offset, lens)[1..] == Ranges(w, offset + lens[0], lens[1..]);
    }
  }

  function Total(lens: seq<nat>): nat {
    if lens == [] then 0 else lens[0] + Total(lens[1..])
  }

  function Ranges(w: Words, offset: nat, lens: seq<nat>): seq<seq<Byte>>
    decreases |lens|
  {
    if lens == [] then [] else [Content(w, offset, lens[0])] + Ranges(w, offset + lens[0], lens[1..])
  }
}
