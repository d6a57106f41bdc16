/**
  What is on the 9P wire, byte by byte: the encoder writes bytes and nothing else, the numbers stand where the protocol
  has them, and encoding undoes decoding.
 */
module P9Layout {
  import opened P9Codec
  import opened P9Pdu

  // ---------------------------------------------------------------- bytes

  ghost predicate IsBytes(s: Bytes) { forall i :: 0 <= i < |s| ==> s[i] < 256 }

  lemma {:induction false} LeBytes(width: nat, n: nat)
    ensures IsBytes(Le(width, n))
  {
    if width != 0 {
      LeBytes(width - 1, n / 256);
    }
  }

  /** One byte in front: it is the remainder, and the rest is the quotient. */
  lemma LeStep(width: nat, b: nat, n: nat)
    requires b < 256
    ensures Le(width + 1, b + 256 * n) == [b] + Le(width, n)
  {
    var m := b + 256 * n;
    assert m % 256 == b && m / 256 == n;
  }

  /** Bytes are the encoding of the number they decode to, and of no other. */
  lemma {:induction false} LeOfFromLe(s: Bytes)
    requires IsBytes(s)
    ensures FromLe(s) < Bound(|s|) && Le(|s|, FromLe(s)) == s
  {
    if s != [] {
      LeOfFromLe(s[1..]);
      LeStep(|s| - 1, s[0], FromLe(s[1..]));
      assert s == [s[0]] + s[1..];
    }
  }

  /** The strings of a value are made of bytes. */
  ghost predicate ByteStrings(v: Val)
  {
    match v
    case NumVal(_) => true
    case StrVal(s) => IsBytes(s)
    case RecVal(vs) => AllByteStrings(vs)
  }

  ghost predicate AllByteStrings(vs: Vals) { vs.Nil? || (ByteStrings(vs.val) && AllByteStrings(vs.rest)) }

  lemma {:induction false} CStrPrefix(s: Bytes)
    ensures CStr(s) <= s
  {
    if s != [] && s[0] != 0 {
      CStrPrefix(s[1..]);
      assert s == [s[0]] + s[1..];
    }
  }

  /** What the encoder writes is bytes. */
  lemma {:induction false} EncodeBytes(f: Fmt, v: Val)
    requires Matches(f, v) && ByteStrings(v)
    ensures IsBytes(Encode(f, v))
    decreases f
  {
    match f
    case Num(w) => LeBytes(w, v.n);
    case Str =>
      LeBytes(2, |Sent(v.s)|);
      CStrPrefix(v.s);
    case Rec(fs) => EncodeAllBytes(fs, v.fields);
  }

  lemma {:induction false} EncodeAllBytes(fs: Fmts, vs: Vals)
    requires AllMatch(fs, vs) && AllByteStrings(vs)
    ensures IsBytes(EncodeAll(fs, vs))
    decreases fs
  {
    match fs
    case End =>
    case More(f, rest) =>
      EncodeBytes(f, vs.val);
      EncodeAllBytes(rest, vs.rest);
  }

  /** Buffers that hold bytes still do after values are written into them. */
  lemma WrittenBytes(iov: seq<Bytes>, at: nat, fs: Fmts, vs: Vals)
    requires IsBytes(Flat(iov)) && AllMatch(fs, vs) && AllByteStrings(vs)
    ensures IsBytes(Flat(WriteIov(iov, at, EncodeAll(fs, vs))))
  {
    var s, data := Flat(iov), EncodeAll(fs, vs);
    WriteIsOverlay(iov, at, data);
    EncodeAllBytes(fs, vs);
    forall i | 0 <= i < |s| ensures Overlay(s, at, data)[i] < 256 {
      OverlayMeans(s, at, data, i);
    }
  }

  // ---------------------------------------------------------------- encoding what was decoded

  /** The value decoded from bytes has the shape of its format, and encoding it takes no more than those bytes. */
  ghost predicate Restores(f: Fmt, v: Val, bytes: Bytes)
  {
    && Matches(f, v) && ByteStrings(v) && |Encode(f, v)| <= |bytes|
    && (|Encode(f, v)| == |bytes| <==> Clean(v)) && (Clean(v) ==> Encode(f, v) == bytes)
  }

  ghost predicate RestoresAll(fs: Fmts, vs: Vals, bytes: Bytes)
  {
    && AllMatch(fs, vs) && AllByteStrings(vs) && |EncodeAll(fs, vs)| <= |bytes|
    && (|EncodeAll(fs, vs)| == |bytes| <==> AllClean(vs)) && (AllClean(vs) ==> EncodeAll(fs, vs) == bytes)
  }

  lemma RestoresBoth(f: Fmt, v: Val, a: Bytes, fs: Fmts, vs: Vals, b: Bytes)
    requires Restores(f, v, a) && RestoresAll(fs, vs, b)
    ensures RestoresAll(More(f, fs), Cons(v, vs), a + b)
  {
  }

  /** The same of bytes that stand at a place. */
  ghost predicate RestoresAt(f: Fmt, v: Val, s: Bytes, at: nat, n: nat)
  {
    at + n <= |s| && Restores(f, v, s[at..at + n])
  }

  ghost predicate RestoresAllAt(fs: Fmts, vs: Vals, s: Bytes, at: nat, n: nat)
  {
    at + n <= |s| && RestoresAll(fs, vs, s[at..at + n])
  }

  lemma RestoresBothAt(f: Fmt, v: Val, fs: Fmts, vs: Vals, s: Bytes, at: nat, m: nat, n: nat)
    requires RestoresAt(f, v, s, at, m) && RestoresAllAt(fs, vs, s, at + m, n)
    ensures RestoresAllAt(More(f, fs), Cons(v, vs), s, at, m + n)
  {
    RestoresBoth(f, v, s[at..at + m], fs, vs, s[at + m..at + m + n]);
    assert s[at..at + m] + s[at + m..at + m + n] == s[at..at + (m + n)];
  }

  /** The first value and the others, where all decode. */
  lemma DecodeParts(fs: Fmts, s: Bytes, at: nat)
    requires fs.More? && DecodeAll(fs, s, at).Some?
    ensures Decode(fs.fmt, s, at).Some? && DecodeAll(fs.rest, s, at + Decode(fs.fmt, s, at).size).Some?
    ensures
      var r := Decode(fs.fmt, s, at);
      var t := DecodeAll(fs.rest, s, at + r.size);
      DecodeAll(fs, s, at) == Some(Cons(r.value, t.value), r.size + t.size)
  {
  }

  lemma DecodedString(s: Bytes, at: nat)
    requires IsBytes(s) && Decode(Str, s, at).Some?
    ensures var r := Decode(Str, s, at); RestoresAt(Str, r.value, s, at, r.size)
  {
    var n := FromLe(s[at..at + 2]);
    var str := s[at + 2..at + 2 + n];
    LeOfFromLe(s[at..at + 2]);
    SentWhole(str);
    assert s[at..at + 2 + n] == s[at..at + 2] + str;
  }

  lemma {:induction false} Decoded(f: Fmt, s: Bytes, at: nat)
    requires IsBytes(s) && at <= |s| && Decode(f, s, at).Some?
    ensures var r := Decode(f, s, at); RestoresAt(f, r.value, s, at, r.size)
    decreases f
  {
    match f
    case Num(w) => LeOfFromLe(s[at..at + w]);
    case Str => DecodedString(s, at);
    case Rec(fs) => AllDecoded(fs, s, at);
  }

  lemma {:induction false} AllDecoded(fs: Fmts, s: Bytes, at: nat)
    requires IsBytes(s) && at <= |s| && DecodeAll(fs, s, at).Some?
    ensures var r := DecodeAll(fs, s, at); RestoresAllAt(fs, r.value, s, at, r.size)
    decreases fs
  {
    match fs
    case End =>
    case More(f, rest) =>
      DecodeParts(fs, s, at);
      var r := Decode(f, s, at);
      Decoded(f, s, at);
      AllDecoded(rest, s, at + r.size);
      RestoresBothAt(f, r.value, rest, DecodeAll(rest, s, at + r.size).value, s, at, r.size,
                     DecodeAll(rest, s, at + r.size).size);
  }

  /** Encoding what was decoded gives the bytes back exactly when its strings have no NUL. */
  lemma EncodeOfDecode(f: Fmt, s: Bytes, at: nat)
    requires IsBytes(s) && at <= |s| && Decode(f, s, at).Some?
    ensures
      var r := Decode(f, s, at);
      && at + r.size <= |s| && Matches(f, r.value)
      && (Encode(f, r.value) == s[at..at + r.size] <==> Clean(r.value))
  {
    Decoded(f, s, at);
  }

  // ---------------------------------------------------------------- layouts

  /** The number of some bytes at a place of a message. */
  ghost predicate NumberAt(s: Bytes, at: nat, width: nat, n: nat)
  {
    at + width <= |s| && FromLe(s[at..at + width]) == n
  }

  /** The first of some fields stands at the place, the others behind it. */
  lemma TakeField(s: Bytes, at: nat, fs: Fmts, vs: Vals, tail: Bytes)
    requires fs.More? && AllMatch(fs, vs) && At(s, at, EncodeAll(fs, vs) + tail)
    ensures At(s, at, Encode(fs.fmt, vs.val) + (EncodeAll(fs.rest, vs.rest) + tail))
    ensures At(s, at + |Encode(fs.fmt, vs.val)|, EncodeAll(fs.rest, vs.rest) + tail)
  {
    var a, b := Encode(fs.fmt, vs.val), EncodeAll(fs.rest, vs.rest);
    assert EncodeAll(fs, vs) == a + b && (a + b) + tail == a + (b + tail);
    AtSplit(s, at, a, b + tail);
  }

  lemma TakeNumber(s: Bytes, at: nat, fs: Fmts, vs: Vals, tail: Bytes)
    requires fs.More? && fs.fmt.Num? && vs.Cons? && vs.val.NumVal? && AllMatch(fs, vs)
    requires At(s, at, EncodeAll(fs, vs) + tail)
    ensures NumberAt(s, at, fs.fmt.width, vs.val.n) && At(s, at + fs.fmt.width, EncodeAll(fs.rest, vs.rest) + tail)
  {
    TakeField(s, at, fs, vs, tail);
    AtSplit(s, at, Encode(fs.fmt, vs.val), EncodeAll(fs.rest, vs.rest) + tail);
    LeRoundTrip(fs.fmt.width, vs.val.n);
  }

  lemma MatchStep(f: Fmt, v: Val, fs: Fmts, vs: Vals)
    ensures AllMatch(More(f, fs), Cons(v, vs)) <==> Matches(f, v) && AllMatch(fs, vs)
  {
  }

  function QidVal(kind: nat, version: nat, path: nat): Val
  {
    RecVal(Cons(NumVal(kind), Cons(NumVal(version), Cons(NumVal(path), Nil))))
  }

  /** Every identifier whose numbers fit can be sent. */
  lemma QidFits(kind: nat, version: nat, path: nat)
    ensures Matches(QID, QidVal(kind, version, path)) <==> kind < Bound(1) && version < Bound(4) && path < Bound(8)
  {
    MatchStep(B, NumVal(kind), QID.fields.rest, QidVal(kind, version, path).fields.rest);
    MatchStep(D, NumVal(version), More(Q, End), Cons(NumVal(path), Nil));
    MatchStep(Q, NumVal(path), End, Nil);
  }

  /** A file identifier on the wire: the type, the version and the path, in 13 bytes. */
  lemma QidLayout(s: Bytes, at: nat, kind: nat, version: nat, path: nat, tail: Bytes)
    requires Matches(QID, QidVal(kind, version, path)) && At(s, at, Encode(QID, QidVal(kind, version, path)) + tail)
    ensures NumberAt(s, at, 1, kind) && NumberAt(s, at + 1, 4, version) && NumberAt(s, at + 5, 8, path)
    ensures At(s, at + 13, tail)
  {
    var fs, vs := QID.fields, QidVal(kind, version, path).fields;
    TakeNumber(s, at, fs, vs, tail);
    TakeNumber(s, at + 1, fs.rest, vs.rest, tail);
    TakeNumber(s, at + 5, fs.rest.rest, vs.rest.rest, tail);
    assert EncodeAll(End, Nil) + tail == tail;
  }

  /** What a stat record holds, in the order of the protocol. */
  datatype Stat = Stat(size: nat, kind: nat, dev: nat, qidKind: nat, qidVersion: nat, qidPath: nat, mode: nat,
                       atime: nat, mtime: nat, length: nat, name: Bytes, uid: Bytes, gid: Bytes, muid: Bytes)

  function Strings(t: Stat): Vals
  {
    Cons(StrVal(t.name), Cons(StrVal(t.uid), Cons(StrVal(t.gid), Cons(StrVal(t.muid), Nil))))
  }

  function StatVal(t: Stat): Val
  {
    RecVal(Cons(NumVal(t.size), Cons(NumVal(t.kind), Cons(NumVal(t.dev),
           Cons(QidVal(t.qidKind, t.qidVersion, t.qidPath), Cons(NumVal(t.mode), Cons(NumVal(t.atime),
           Cons(NumVal(t.mtime), Cons(NumVal(t.length), Strings(t))))))))))
  }

  /** So can every stat record. */
  predicate StatFits(t: Stat)
  {
    && t.size < Bound(2) && t.kind < Bound(2) && t.dev < Bound(4)
    && t.qidKind < Bound(1) && t.qidVersion < Bound(4) && t.qidPath < Bound(8)
    && t.mode < Bound(4) && t.atime < Bound(4) && t.mtime < Bound(4) && t.length < Bound(8)
  }

  lemma StatMatches(t: Stat)
    ensures Matches(STAT, StatVal(t)) <==> StatFits(t)
  {
    var fs, vs := STAT.fields, StatVal(t).fields;
    MatchStep(W, vs.val, fs.rest, vs.rest);
    fs, vs := fs.rest, vs.rest;
    MatchStep(W, vs.val, fs.rest, vs.rest);
    fs, vs := fs.rest, vs.rest;
    MatchStep(D, vs.val, fs.rest, vs.rest);
    fs, vs := fs.rest, vs.rest;
    MatchStep(QID, vs.val, fs.rest, vs.rest);
    QidFits(t.qidKind, t.qidVersion, t.qidPath);
    TimesFit(t);
  }

  lemma TimesFit(t: Stat)
    ensures
      var fs, vs := STAT.fields.rest.rest.rest.rest, StatVal(t).fields.rest.rest.rest.rest;
      AllMatch(fs, vs) <==> t.mode < Bound(4) && t.atime < Bound(4) && t.mtime < Bound(4) && t.length < Bound(8)
  {
    var fs, vs := STAT.fields.rest.rest.rest.rest, StatVal(t).fields.rest.rest.rest.rest;
    MatchStep(D, vs.val, fs.rest, vs.rest);
    fs, vs := fs.rest, vs.rest;
    MatchStep(D, vs.val, fs.rest, vs.rest);
    fs, vs := fs.rest, vs.rest;
    MatchStep(D, vs.val, fs.rest, vs.rest);
    fs, vs := fs.rest, vs.rest;
    MatchStep(Q, vs.val, fs.rest, vs.rest);
    StringsFit(t);
  }

  lemma StringsFit(t: Stat)
    ensures AllMatch(STRINGS, Strings(t))
  {
    var vs := Strings(t);
    MatchStep(Str, vs.rest.rest.rest.val, End, Nil);
    MatchStep(Str, vs.rest.rest.val, More(Str, End), vs.rest.rest.rest);
    MatchStep(Str, vs.rest.val, More(Str, More(Str, End)), vs.rest.rest);
  }

  /** The numbers of a stat record stand at these places, and the strings follow. */
  ghost predicate StatAt(s: Bytes, at: nat, t: Stat)
  {
    && NumberAt(s, at, 2, t.size) && NumberAt(s, at + 2, 2, t.kind) && NumberAt(s, at + 4, 4, t.dev)
    && NumberAt(s, at + 8, 1, t.qidKind) && NumberAt(s, at + 9, 4, t.qidVersion) && NumberAt(s, at + 13, 8, t.qidPath)
    && NumberAt(s, at + 21, 4, t.mode) && NumberAt(s, at + 25, 4, t.atime) && NumberAt(s, at + 29, 4, t.mtime)
    && NumberAt(s, at + 33, 8, t.length)
  }

  const STRINGS := More(Str, More(Str, More(Str, More(Str, End))))

  /** A stat record on the wire: 41 bytes of numbers with the file identifier from 8 on, then the four strings. */
  lemma StatLayout(s: Bytes, at: nat, t: Stat)
    requires Matches(STAT, StatVal(t)) && At(s, at, Encode(STAT, StatVal(t)))
    ensures StatAt(s, at, t) && AllMatch(STRINGS, Strings(t)) && At(s, at + 41, EncodeAll(STRINGS, Strings(t)))
  {
    var fs, vs, none: Bytes := STAT.fields, StatVal(t).fields, [];
    assert Encode(STAT, StatVal(t)) + none == Encode(STAT, StatVal(t));
    TakeNumber(s, at, fs, vs, none);
    fs, vs := fs.rest, vs.rest;
    TakeNumber(s, at + 2, fs, vs, none);
    fs, vs := fs.rest, vs.rest;
    TakeNumber(s, at + 4, fs, vs, none);
    fs, vs := fs.rest, vs.rest;
    TakeField(s, at + 8, fs, vs, none);
    QidLayout(s, at + 8, t.qidKind, t.qidVersion, t.qidPath, EncodeAll(fs.rest, vs.rest) + none);
    fs, vs := fs.rest, vs.rest;
    TakeNumber(s, at + 21, fs, vs, none);
    fs, vs := fs.rest, vs.rest;
    TakeNumber(s, at + 25, fs, vs, none);
    fs, vs := fs.rest, vs.rest;
    TakeNumber(s, at + 29, fs, vs, none);
    fs, vs := fs.rest, vs.rest;
    TakeNumber(s, at + 33, fs, vs, none);
    assert EncodeAll(STRINGS, Strings(t)) + none == EncodeAll(STRINGS, Strings(t));
  }
}
