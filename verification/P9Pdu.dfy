/**
  Reading and writing a 9P message through scattered buffers: how the bytes are cut into buffers does not matter.
 */
module P9Pdu {
  import opened Numbers
  import opened P9Codec
  import opened Sequences

  function Flat(iov: seq<Bytes>): Bytes { if iov == [] then [] else iov[0] + Flat(iov[1..]) }

  // ---------------------------------------------------------------- reading

  /** At most `size` bytes from an offset on, as far as there are any. */
  function Slice(s: Bytes, offset: nat, size: nat): Bytes
  {
    if |s| <= offset then [] else s[offset..Min(offset + size, |s|)]
  }

  /** Reading buffer by buffer. */
  function ReadIov(iov: seq<Bytes>, offset: nat, size: nat): Bytes
    decreases |iov|
  {
    if iov == [] || size == 0 then []
    else if |iov[0]| <= offset then ReadIov(iov[1..], offset - |iov[0]|, size)
    else
      var n := Min(|iov[0]| - offset, size);
      iov[0][offset..offset + n] + ReadIov(iov[1..], 0, size - n)
  }

  lemma SliceSkip(a: Bytes, b: Bytes, offset: nat, size: nat)
    requires |a| <= offset
    ensures Slice(a + b, offset, size) == Slice(b, offset - |a|, size)
  {
  }

  lemma SliceTake(a: Bytes, b: Bytes, offset: nat, size: nat, n: nat)
    requires offset < |a| && n == Min(|a| - offset, size)
    ensures Slice(a + b, offset, size) == a[offset..offset + n] + Slice(b, 0, size - n)
  {
  }

  lemma {:induction false} ReadIsSlice(iov: seq<Bytes>, offset: nat, size: nat)
    ensures ReadIov(iov, offset, size) == Slice(Flat(iov), offset, size)
    decreases |iov|
  {
    if iov != [] && size != 0 {
      var a, b := iov[0], Flat(iov[1..]);
      assert Flat(iov) == a + b;
      if |a| <= offset {
        SliceSkip(a, b, offset, size);
        ReadIsSlice(iov[1..], offset - |a|, size);
      } else {
        var n := Min(|a| - offset, size);
        SliceTake(a, b, offset, size, n);
        ReadIsSlice(iov[1..], 0, size - n);
      }
    }
  }

  lemma ReadTakes(front: Bytes, rest: seq<Bytes>, offset: nat, left: nat, n: nat)
    requires rest != [] && left != 0 && offset < |rest[0]| && n == Min(|rest[0]| - offset, left)
    ensures front + rest[0][offset..offset + n] + ReadIov(rest[1..], 0, left - n) == front + ReadIov(rest, offset, left)
  {
    var part, tail := rest[0][offset..offset + n], ReadIov(rest[1..], 0, left - n);
    assert front + (part + tail) == front + part + tail;
  }

  // ---------------------------------------------------------------- writing

  /** The bytes with others laid over them from an offset on, as far as there is room. */
  function Overlay(s: Bytes, offset: nat, data: Bytes): (r: Bytes)
    ensures |r| == |s|
  {
    if s == [] || data == [] then s
    else if offset > 0 then [s[0]] + Overlay(s[1..], offset - 1, data)
    else [data[0]] + Overlay(s[1..], 0, data[1..])
  }

  /** Writing buffer by buffer. */
  function WriteIov(iov: seq<Bytes>, offset: nat, data: Bytes): (r: seq<Bytes>)
    ensures |r| == |iov|
    decreases |iov|
  {
    if iov == [] || data == [] then iov
    else if |iov[0]| <= offset then [iov[0]] + WriteIov(iov[1..], offset - |iov[0]|, data)
    else
      var n := Min(|iov[0]| - offset, |data|);
      [Overlay(iov[0], offset, data)] + WriteIov(iov[1..], 0, data[n..])
  }

  /** How many bytes fit from an offset on. */
  function Room(s: Bytes, offset: nat, size: nat): nat { if |s| <= offset then 0 else Min(|s| - offset, size) }

  /** Byte by byte: the new ones where they reach, the old ones elsewhere. */
  lemma {:induction false} OverlayMeans(s: Bytes, offset: nat, data: Bytes, i: nat)
    requires i < |s|
    ensures Overlay(s, offset, data)[i] == if offset <= i < offset + |data| then data[i - offset] else s[i]
  {
    if i > 0 && data != [] {
      OverlayMeans(s[1..], if offset > 0 then offset - 1 else 0, if offset > 0 then data else data[1..], i - 1);
    }
  }

  lemma TailOf(a: Bytes, b: Bytes)
    requires a != []
    ensures (a + b)[1..] == a[1..] + b
  {
  }

  lemma OverlayCons(x: nat, s: Bytes, offset: nat, data: Bytes)
    requires offset > 0
    ensures Overlay([x] + s, offset, data) == [x] + Overlay(s, offset - 1, data)
  {
    assert ([x] + s)[1..] == s;
  }

  lemma {:induction false} OverlaySkip(a: Bytes, b: Bytes, offset: nat, data: Bytes)
    requires |a| <= offset
    ensures Overlay(a + b, offset, data) == a + Overlay(b, offset - |a|, data)
  {
    if a == [] {
      assert a + b == b;
    } else {
      var x, tail := [a[0]], a[1..];
      OverlaySkip(tail, b, offset - 1, data);
      OverlayCons(a[0], tail + b, offset, data);
      Associate(x, tail, b);
      Associate(x, tail, Overlay(b, offset - |a|, data));
      assert a == x + tail;
    }
  }

  lemma {:induction false} OverlayTake(a: Bytes, b: Bytes, offset: nat, data: Bytes, n: nat)
    requires offset <= |a| && n == Min(|a| - offset, |data|)
    ensures Overlay(a + b, offset, data) == Overlay(a, offset, data) + Overlay(b, 0, data[n..])
  {
    if a == [] {
      assert a + b == b && data[n..] == data;
    } else if data != [] {
      TailOf(a, b);
      var tail := Overlay(b, 0, data[n..]);
      if offset > 0 {
        OverlayTake(a[1..], b, offset - 1, data, n);
        Associate([a[0]], Overlay(a[1..], offset - 1, data), tail);
      } else {
        OverlayTake(a[1..], b, 0, data[1..], n - 1);
        assert data[1..][n - 1..] == data[n..];
        Associate([data[0]], Overlay(a[1..], 0, data[1..]), tail);
      }
    }
  }

  lemma FlatCons(a: Bytes, iov: seq<Bytes>)
    ensures Flat([a] + iov) == a + Flat(iov)
  {
    assert ([a] + iov)[1..] == iov;
  }

  /** One buffer passed over, and one written into. */
  lemma WriteSkipped(a: Bytes, b: Bytes, out: seq<Bytes>, offset: nat, data: Bytes)
    requires |a| <= offset && Flat(out) == Overlay(b, offset - |a|, data)
    ensures Flat([a] + out) == Overlay(a + b, offset, data)
  {
    FlatCons(a, out);
    OverlaySkip(a, b, offset, data);
  }

  lemma WriteTaken(a: Bytes, b: Bytes, out: seq<Bytes>, offset: nat, data: Bytes, n: nat)
    requires offset < |a| && n == Min(|a| - offset, |data|) && Flat(out) == Overlay(b, 0, data[n..])
    ensures Flat([Overlay(a, offset, data)] + out) == Overlay(a + b, offset, data)
  {
    FlatCons(Overlay(a, offset, data), out);
    OverlayTake(a, b, offset, data, n);
  }

  lemma {:induction false} WriteIsOverlay(iov: seq<Bytes>, offset: nat, data: Bytes)
    ensures Flat(WriteIov(iov, offset, data)) == Overlay(Flat(iov), offset, data)
    decreases |iov|
  {
    if data != [] && iov != [] {
      var a, tail := iov[0], iov[1..];
      if |a| <= offset {
        WriteIsOverlay(tail, offset - |a|, data);
        WriteSkipped(a, Flat(tail), WriteIov(tail, offset - |a|, data), offset, data);
      } else {
        var n := Min(|a| - offset, |data|);
        WriteIsOverlay(tail, 0, data[n..]);
        WriteTaken(a, Flat(tail), WriteIov(tail, 0, data[n..]), offset, data, n);
      }
    }
  }

  /** What did not fit. */
  function LeftIov(iov: seq<Bytes>, offset: nat, data: Bytes): Bytes
    decreases |iov|
  {
    if iov == [] || data == [] then data
    else if |iov[0]| <= offset then LeftIov(iov[1..], offset - |iov[0]|, data)
    else LeftIov(iov[1..], 0, data[Min(|iov[0]| - offset, |data|)..])
  }

  lemma {:induction false} LeftIsRoom(iov: seq<Bytes>, offset: nat, data: Bytes)
    ensures |data| - |LeftIov(iov, offset, data)| == Room(Flat(iov), offset, |data|)
    decreases |iov|
  {
    if iov != [] && data != [] {
      if |iov[0]| <= offset {
        LeftIsRoom(iov[1..], offset - |iov[0]|, data);
      } else {
        LeftIsRoom(iov[1..], 0, data[Min(|iov[0]| - offset, |data|)..]);
      }
    }
  }

  /** Writing moves no boundary between buffers. */
  lemma {:induction false} WriteKeepsSizes(iov: seq<Bytes>, offset: nat, data: Bytes)
    ensures forall i :: 0 <= i < |iov| ==> |WriteIov(iov, offset, data)[i]| == |iov[i]|
    decreases |iov|
  {
    if iov != [] && data != [] {
      if |iov[0]| <= offset {
        WriteKeepsSizes(iov[1..], offset - |iov[0]|, data);
      } else {
        WriteKeepsSizes(iov[1..], 0, data[Min(|iov[0]| - offset, |data|)..]);
      }
    }
  }

  lemma OverlayTail(s: Bytes, offset: nat, data: Bytes)
    requires s != [] && data != []
    ensures Overlay(s, offset, data)[0] == if offset > 0 then s[0] else data[0]
    ensures offset > 0 ==> Overlay(s, offset, data)[1..] == Overlay(s[1..], offset - 1, data)
    ensures offset == 0 ==> Overlay(s, offset, data)[1..] == Overlay(s[1..], 0, data[1..])
  {
  }

  /** Writing on from where the last write ended is one write, even when the room runs out. */
  lemma {:induction false} OverlayOn(s: Bytes, offset: nat, a: Bytes, b: Bytes)
    requires offset <= |s|
    ensures
      Overlay(Overlay(s, offset, a), offset + Room(s, offset, |a|), b) == Overlay(s, offset, a + b)
  {
    if a == [] {
      assert a + b == b;
    } else if b == [] {
      assert a + b == a;
    } else if s != [] {
      OverlayTail(s, offset, a);
      TailOf(a, b);
      OverlayOn(s[1..], if offset > 0 then offset - 1 else 0, if offset > 0 then a else a[1..], b);
    }
  }

  lemma RoomOn(s: Bytes, offset: nat, a: nat, b: nat)
    requires offset <= |s|
    ensures
      var next := offset + Room(s, offset, a);
      next + Room(s, next, b) == offset + Room(s, offset, a + b)
  {
  }

  /** Passing over a buffer, and writing into one. */
  lemma WriteSkips(front: seq<Bytes>, rest: seq<Bytes>, offset: nat, left: Bytes)
    requires rest != [] && left != [] && |rest[0]| <= offset
    ensures front + [rest[0]] + WriteIov(rest[1..], offset - |rest[0]|, left) == front + WriteIov(rest, offset, left)
  {
    MoveHead(front, [rest[0]] + WriteIov(rest[1..], offset - |rest[0]|, left));
  }

  lemma WriteTakes(front: seq<Bytes>, rest: seq<Bytes>, offset: nat, left: Bytes, n: nat)
    requires rest != [] && left != [] && offset < |rest[0]| && n == Min(|rest[0]| - offset, |left|)
    ensures front + [Overlay(rest[0], offset, left)] + WriteIov(rest[1..], 0, left[n..]) ==
            front + WriteIov(rest, offset, left)
  {
    MoveHead(front, [Overlay(rest[0], offset, left)] + WriteIov(rest[1..], 0, left[n..]));
  }

  class Pdu {
    var outIov: seq<Bytes>
    var inIov: seq<Bytes>
    var readOffset: nat
    var writeOffset: nat

    constructor (outIov: seq<Bytes>, inIov: seq<Bytes>)
      ensures this.outIov == outIov && this.inIov == inIov && readOffset == writeOffset == 0
    {
      this.outIov, this.inIov, readOffset, writeOffset := outIov, inIov, 0, 0;
    }

    method Read(size: nat) returns (data: Bytes)
      modifies this`readOffset
      ensures data == Slice(Flat(outIov), old(readOffset), size) && readOffset == old(readOffset) + |data|
    {
      var offset: nat, left: nat, i := readOffset, size, 0;
      ghost var rest := outIov;
      data := [];
      while i < |outIov| && left != 0
        invariant readOffset == old(readOffset) && 0 <= i <= |outIov| && rest == outIov[i..]
        invariant data + ReadIov(rest, offset, left) == ReadIov(outIov, readOffset, size)
      {
        assert rest[0] == outIov[i];
        if offset >= |outIov[i]| {
          offset := offset - |outIov[i]|;
        } else {
          var n := Min(|outIov[i]| - offset, left);
          ReadTakes(data, rest, offset, left, n);
          data, left, offset := data + outIov[i][offset..offset + n], left - n, 0;
        }
        i, rest := i + 1, rest[1..];
      }
      ReadIsSlice(outIov, readOffset, size);
      readOffset := readOffset + |data|;
    }

    method Write(data: Bytes)
      modifies this`inIov, this`writeOffset
      ensures inIov == WriteIov(old(inIov), old(writeOffset), data)
      ensures Flat(inIov) == Overlay(old(Flat(inIov)), old(writeOffset), data)
      ensures writeOffset == old(writeOffset) + Room(old(Flat(inIov)), old(writeOffset), |data|)
    {
      var offset: nat, left, i, copied := writeOffset, data, 0, 0;
      var front: seq<Bytes> := [];
      ghost var rest := inIov;
      while i < |inIov| && left != []
        invariant inIov == old(inIov) && writeOffset == old(writeOffset) && 0 <= i <= |inIov| && rest == inIov[i..]
        invariant front + WriteIov(rest, offset, left) == WriteIov(inIov, writeOffset, data)
        invariant LeftIov(rest, offset, left) == LeftIov(inIov, writeOffset, data) && copied + |left| == |data|
      {
        assert rest[0] == inIov[i];
        if offset >= |inIov[i]| {
          WriteSkips(front, rest, offset, left);
          front := front + [inIov[i]];
          offset := offset - |inIov[i]|;
        } else {
          var n := Min(|inIov[i]| - offset, |left|);
          WriteTakes(front, rest, offset, left, n);
          front := front + [Overlay(inIov[i], offset, left)];
          left, offset, copied := left[n..], 0, copied + n;
        }
        i, rest := i + 1, rest[1..];
      }
      WriteIsOverlay(inIov, writeOffset, data);
      LeftIsRoom(inIov, writeOffset, data);
      inIov, writeOffset := front + inIov[i..], writeOffset + copied;
    }

    /** Reads one value; the bytes must be there, and a string length must not be negative. */
    method DecodeVal(f: Fmt) returns (v: Val)
      requires Decode(f, Flat(outIov), readOffset).Some?
      modifies this`readOffset
      ensures old(readOffset) <= readOffset
      ensures Decode(f, Flat(outIov), old(readOffset)) == Some(v, readOffset - old(readOffset))
      decreases f
    {
      match f
      case Num(w) =>
        var data := Read(w);
        v := NumVal(FromLe(data));
      case Str =>
        var data := Read(2);
        var len := FromLe(data);
        var s := Read(len);
        v := StrVal(s);
      case Rec(fs) =>
        var vs := Readf(fs);
        v := RecVal(vs);
    }

    method Readf(fs: Fmts) returns (vs: Vals)
      requires DecodeAll(fs, Flat(outIov), readOffset).Some?
      modifies this`readOffset
      ensures old(readOffset) <= readOffset
      ensures DecodeAll(fs, Flat(outIov), old(readOffset)) == Some(vs, readOffset - old(readOffset))
      decreases fs
    {
      match fs
      case End => vs := Nil;
      case More(f, rest) =>
        var v := DecodeVal(f);
        var ws := Readf(rest);
        vs := Cons(v, ws);
    }

    /** Writes one value, as far as there is room. */
    method EncodeVal(f: Fmt, v: Val)
      requires Matches(f, v) && writeOffset <= |Flat(inIov)|
      modifies this`inIov, this`writeOffset
      ensures Flat(inIov) == Overlay(old(Flat(inIov)), old(writeOffset), Encode(f, v))
      ensures writeOffset == old(writeOffset) + Room(old(Flat(inIov)), old(writeOffset), |Encode(f, v)|)
      decreases f
    {
      match f
      case Num(w) => Write(Le(w, v.n));
      case Str =>
        var s := Sent(v.s);
        OverlayOn(Flat(inIov), writeOffset, Le(2, |s|), s);
        RoomOn(Flat(inIov), writeOffset, 2, |s|);
        Write(Le(2, |s|));
        Write(s);
      case Rec(fs) => Writef(fs, v.fields);
    }

    method Writef(fs: Fmts, vs: Vals)
      requires AllMatch(fs, vs) && writeOffset <= |Flat(inIov)|
      modifies this`inIov, this`writeOffset
      ensures Flat(inIov) == Overlay(old(Flat(inIov)), old(writeOffset), EncodeAll(fs, vs))
      ensures writeOffset == old(writeOffset) + Room(old(Flat(inIov)), old(writeOffset), |EncodeAll(fs, vs)|)
      decreases fs
    {
      match fs
      case End =>
      case More(f, rest) =>
        OverlayOn(Flat(inIov), writeOffset, Encode(f, vs.val), EncodeAll(rest, vs.rest));
        RoomOn(Flat(inIov), writeOffset, |Encode(f, vs.val)|, |EncodeAll(rest, vs.rest)|);
        EncodeVal(f, vs.val);
        Writef(rest, vs.rest);
    }
  }

  lemma {:induction false} OverlayAt(s: Bytes, at: nat, bytes: Bytes)
    requires at + |bytes| <= |s|
    ensures At(Overlay(s, at, bytes), at, bytes)
  {
    forall i | at <= i < at + |bytes|
      ensures Overlay(s, at, bytes)[i] == bytes[i - at]
    {
      OverlayMeans(s, at, bytes, i);
    }
  }

  /**
    What is written into one set of buffers is read back from any other set that holds the same bytes at any place,
    wherever the two are cut, if there was room for it and its strings are clean.
   */
  lemma ReadBack(fs: Fmts, vs: Vals, written: seq<Bytes>, at: nat, read: seq<Bytes>, offset: nat)
    requires AllMatch(fs, vs) && AllClean(vs) && at + |EncodeAll(fs, vs)| <= |Flat(written)|
    requires
      var n := |EncodeAll(fs, vs)|;
      && |Flat(WriteIov(written, at, EncodeAll(fs, vs)))| == |Flat(written)| && offset + n <= |Flat(read)|
      && Flat(read)[offset..offset + n] == Flat(WriteIov(written, at, EncodeAll(fs, vs)))[at..at + n]
    ensures DecodeAll(fs, Flat(read), offset) == Some(vs, |EncodeAll(fs, vs)|)
  {
    var bytes := EncodeAll(fs, vs);
    WriteIsOverlay(written, at, bytes);
    OverlayAt(Flat(written), at, bytes);
    AllRoundTrip(fs, vs, Flat(read), offset);
  }
}
