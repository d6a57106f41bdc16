/**
  The 9P wire format: little-endian numbers, counted strings and records of them, driven by a format.
 */
module P9Codec {
  import opened Numbers

  const MAX_STRING := 0x8000 // a decoded length is a signed 16-bit number
  const USHRT_MAX := 0xffff

  type Bytes = seq<nat>

  /** A decoded value and how many bytes it took. */
  datatype Parsed<T> = None | Some(value: T, size: nat)

  /** A number of some bytes, a string, or a record with a format of its own. */
  datatype Fmt = Num(width: nat) | Str | Rec(fields: Fmts)
  datatype Fmts = End | More(fmt: Fmt, rest: Fmts)

  datatype Val = NumVal(n: nat) | StrVal(s: Bytes) | RecVal(fields: Vals)
  datatype Vals = Nil | Cons(val: Val, rest: Vals)

  /** The formats b, w, d, q, s, Q and S. */
  const B := Num(1)
  const W := Num(2)
  const D := Num(4)
  const Q := Num(8)
  const QID := Rec(More(B, More(D, More(Q, End))))
  const STAT := Rec(More(W, More(W, More(D, More(QID, More(D, More(D, More(D, More(Q,
                    More(Str, More(Str, More(Str, More(Str, End)))))))))))))

  // ---------------------------------------------------------------- numbers and strings

  function Le(width: nat, n: nat): (s: Bytes)
    ensures |s| == width
  {
    if width == 0 then [] else [n % 256] + Le(width - 1, n / 256)
  }

  function FromLe(s: Bytes): nat { if s == [] then 0 else s[0] + 256 * FromLe(s[1..]) }

  /** The least number that does not fit. */
  function Bound(width: nat): nat { if width == 0 then 1 else 256 * Bound(width - 1) }

  lemma {:induction false} LeRoundTrip(width: nat, n: nat)
    requires n < Bound(width)
    ensures FromLe(Le(width, n)) == n
  {
    if width != 0 {
      LeRoundTrip(width - 1, n / 256);
    }
  }

  /** The last byte is the most significant. */
  lemma {:induction false} FromLeLast(s: Bytes, b: nat)
    ensures FromLe(s + [b]) == FromLe(s) + Bound(|s|) * b
  {
    if s == [] {
      assert s + [b] == [b] && [b][1..] == [];
    } else {
      FromLeLast(s[1..], b);
      assert (s + [b])[1..] == s[1..] + [b];
      assert 256 * (Bound(|s| - 1) * b) == Bound(|s|) * b;
    }
  }

  /** A C string: the bytes before the first NUL. */
  function CStr(s: Bytes): (r: Bytes)
    ensures |r| <= |s|
  {
    if s == [] || s[0] == 0 then [] else [s[0]] + CStr(s[1..])
  }

  /** The bytes of a string that are sent: a length has 16 bits. */
  function Sent(s: Bytes): (r: Bytes)
    ensures |r| <= USHRT_MAX && |r| <= |s|
  {
    var c := CStr(s);
    c[..Min(|c|, USHRT_MAX)]
  }

  predicate CleanStr(s: Bytes) { 0 !in s && |s| < 0x8000 }

  lemma {:induction false} CStrWhole(s: Bytes)
    ensures |CStr(s)| == |s| <==> 0 !in s
    ensures |CStr(s)| == |s| ==> CStr(s) == s
  {
    if s != [] && s[0] != 0 {
      CStrWhole(s[1..]);
      assert s == [s[0]] + s[1..];
    }
  }

  /** A string is sent whole, with a length that the receiver accepts, exactly when it is clean. */
  lemma SentWhole(s: Bytes)
    ensures |Sent(s)| == |s| < MAX_STRING <==> CleanStr(s)
    ensures |Sent(s)| == |s| ==> Sent(s) == s
  {
    CStrWhole(s);
  }

  // ---------------------------------------------------------------- encoding and decoding

  /** The value has the shape of the format. */
  predicate Matches(f: Fmt, v: Val)
  {
    match f
    case Num(w) => v.NumVal? && v.n < Bound(w)
    case Str => v.StrVal?
    case Rec(fs) => v.RecVal? && AllMatch(fs, v.fields)
  }

  predicate AllMatch(fs: Fmts, vs: Vals)
  {
    match fs
    case End => vs.Nil?
    case More(f, rest) => vs.Cons? && Matches(f, vs.val) && AllMatch(rest, vs.rest)
  }

  function Encode(f: Fmt, v: Val): Bytes
    requires Matches(f, v)
  {
    match f
    case Num(w) => Le(w, v.n)
    case Str => Le(2, |Sent(v.s)|) + Sent(v.s)
    case Rec(fs) => EncodeAll(fs, v.fields)
  }

  function EncodeAll(fs: Fmts, vs: Vals): Bytes
    requires AllMatch(fs, vs)
  {
    match fs
    case End => []
    case More(f, rest) => Encode(f, vs.val) + EncodeAll(rest, vs.rest)
  }

  /**
    The value that begins at a place, and how many bytes it takes; nothing if bytes are missing or a length is
    negative.
   */
  function Decode(f: Fmt, s: Bytes, at: nat): (r: Parsed<Val>)
    decreases f
  {
    match f
    case Num(w) => if |s| < at + w then None else Some(NumVal(FromLe(s[at..at + w])), w)
    case Str =>
      if |s| < at + 2 then None
      else
        var n := FromLe(s[at..at + 2]);
        if MAX_STRING <= n || |s| < at + 2 + n then None else Some(StrVal(s[at + 2..at + 2 + n]), 2 + n)
    case Rec(fs) =>
      var r := DecodeAll(fs, s, at);
      if r.None? then None else Some(RecVal(r.value), r.size)
  }

  function DecodeAll(fs: Fmts, s: Bytes, at: nat): (r: Parsed<Vals>)
    decreases fs
  {
    match fs
    case End => Some(Nil, 0)
    case More(f, rest) =>
      var r := Decode(f, s, at);
      if r.None? then None
      else
        var t := DecodeAll(rest, s, at + r.size);
        if t.None? then None else Some(Cons(r.value, t.value), r.size + t.size)
  }

  predicate Clean(v: Val)
  {
    match v
    case NumVal(_) => true
    case StrVal(s) => CleanStr(s)
    case RecVal(vs) => AllClean(vs)
  }

  predicate AllClean(vs: Vals) { vs.Nil? || (Clean(vs.val) && AllClean(vs.rest)) }

  // ---------------------------------------------------------------- the round trip

  /** Some bytes stand at a place of a message. */
  predicate At(s: Bytes, at: nat, bytes: Bytes) { at + |bytes| <= |s| && s[at..at + |bytes|] == bytes }

  lemma AtSplit(s: Bytes, at: nat, a: Bytes, b: Bytes)
    requires At(s, at, a + b)
    ensures At(s, at, a) && At(s, at + |a|, b)
  {
    assert s[at..at + |a|] == s[at..at + |a + b|][..|a|];
    assert s[at + |a|..at + |a| + |b|] == s[at..at + |a + b|][|a|..];
  }

  /** Decoding gives the value back, wherever in a message it stands, exactly when its strings are clean. */
  lemma {:induction false} RoundTrip(f: Fmt, v: Val, s: Bytes, at: nat)
    requires Matches(f, v) && At(s, at, Encode(f, v))
    ensures
      var r := Decode(f, s, at);
      && (r.Some? && r.value == v <==> Clean(v))
      && (Clean(v) ==> r == Some(v, |Encode(f, v)|))
    decreases f
  {
    match f
    case Num(w) => LeRoundTrip(w, v.n);
    case Str =>
      StrRoundTrip(v.s, s, at);
      SentWhole(v.s);
      assert v == StrVal(v.s);
    case Rec(fs) => AllRoundTrip(fs, v.fields, s, at);
  }

  lemma StrRoundTrip(str: Bytes, s: Bytes, at: nat)
    requires At(s, at, Le(2, |Sent(str)|) + Sent(str))
    ensures
      var r := Decode(Str, s, at);
      if CleanStr(str) then r == Some(StrVal(str), 2 + |str|) else r.None? || r.value != StrVal(str)
  {
    AtSplit(s, at, Le(2, |Sent(str)|), Sent(str));
    LeRoundTrip(2, |Sent(str)|);
    SentWhole(str);
  }

  lemma {:induction false} AllRoundTrip(fs: Fmts, vs: Vals, s: Bytes, at: nat)
    requires AllMatch(fs, vs) && At(s, at, EncodeAll(fs, vs))
    ensures
      var r := DecodeAll(fs, s, at);
      && (r.Some? && r.value == vs <==> AllClean(vs))
      && (AllClean(vs) ==> r == Some(vs, |EncodeAll(fs, vs)|))
    decreases fs
  {
    match fs
    case End =>
    case More(f, rest) =>
      AtSplit(s, at, Encode(f, vs.val), EncodeAll(rest, vs.rest));
      RoundTrip(f, vs.val, s, at);
      AllRoundTrip(rest, vs.rest, s, at + |Encode(f, vs.val)|);
  }

  /** What a NUL does to a string: the bytes up to it arrive. */
  lemma NulCutsString()
    ensures Encode(Str, StrVal([65, 0, 66])) == [1, 0, 65]
    ensures Decode(Str, [1, 0, 65], 0) == Some(StrVal([65]), 3)
  {
    assert [65, 0, 66][1..] == [0, 66];
    assert CStr([65, 0, 66]) == [65];
    assert [1, 0, 65][0..2] == [1, 0] && [1, 0][1..] == [0] && [0][1..] == [];
    assert [1, 0, 65][2..3] == [65];
  }

  lemma {:induction false} CStrOfOnes(n: nat)
    ensures CStr(seq(n, _ => 1)) == seq(n, _ => 1)
  {
    CStrWhole(seq(n, _ => 1));
  }

  /** A string of 32768 bytes is sent with a length that the receiver takes for a negative one. */
  lemma LongStringRefused(s: Bytes)
    requires At(s, 0, Encode(Str, StrVal(seq(MAX_STRING, _ => 1))))
    ensures Decode(Str, s, 0) == None
  {
    CStrOfOnes(MAX_STRING);
    var sent := Sent(seq(MAX_STRING, _ => 1));
    AtSplit(s, 0, Le(2, |sent|), sent);
    LeRoundTrip(2, |sent|);
  }
}
