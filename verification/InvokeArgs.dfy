/**
 The wire format of `InvokeArg`: a recursive tag-length-value encoding. The two functions
 `Encoding` and `Parse` say what the format means; the methods `Encode` and `Decode` are
 the loops of `invoke_arg.rs` and `DecodeArgs` the argument-list loop of `host_invoke`.
 */
module InvokeArgs {
  import opened Bytes
  import opened MemValue

  datatype InvokeArg =
    | Prim(v: Value)
    | Instance(handle: U64)
    | Str(utf8: seq<Byte>)
    | Struct(raw: seq<Byte>)
    | Array(elems: seq<InvokeArg>)
    | Null

  // ----- UTF-8 (section 4 of RFC 3629) -----

  predicate Tail(bs: seq<Byte>, from: nat, n: nat) {
    from + n <= |bs| && forall i :: from <= i < from + n ==> 0x80 <= bs[i] <= 0xBF
  }

  /** Length in bytes of the well-formed character that starts `bs`, or 0. */
  function CharLength(bs: seq<Byte>): (n: nat)
    ensures n <= |bs|
  {
    if bs == [] then 0
    else if bs[0] <= 0x7F then 1
    else if 0xC2 <= bs[0] <= 0xDF && Tail(bs, 1, 1) then 2
    else if 0xE0 <= bs[0] <= 0xEF && Tail(bs, 1, 2)
      && (bs[0] == 0xE0 ==> 0xA0 <= bs[1]) && (bs[0] == 0xED ==> bs[1] <= 0x9F) then 3
    else if 0xF0 <= bs[0] <= 0xF4 && Tail(bs, 1, 3)
      && (bs[0] == 0xF0 ==> 0x90 <= bs[1]) && (bs[0] == 0xF4 ==> bs[1] <= 0x8F) then 4
    else 0
  }

  predicate ValidUtf8(bs: seq<Byte>) {
    bs == [] || (CharLength(bs) > 0 && ValidUtf8(bs[CharLength(bs)..]))
  }

  /** A Unicode scalar value: any code point but the surrogates. */
  type Scalar = c: nat | c < 0xD800 || 0xE000 <= c < 0x11_0000

  /** The low six bits of `n` in a byte that continues a character. */
  function Continuation(n: nat): (b: Byte)
    ensures 0x80 <= b <= 0xBF && b % 0x40 == n % 0x40
  {
    var low := n % 0x40;
    0x80 + low
  }

  /** Its bytes, by section 3 of RFC 3629. */
  function Utf8(c: Scalar): (bs: seq<Byte>)
    ensures bs != []
  {
    if c < 0x80 then [c]
    else if c < 0x800 then [0xC0 + c / 0x40, Continuation(c)]
    else if c < 0x1_0000 then [0xE0 + c / 0x1000, Continuation(c / 0x40), Continuation(c)]
    else [0xF0 + c / 0x4_0000, Continuation(c / 0x1000), Continuation(c / 0x40), Continuation(c)]
  }

  function Text(cs: seq<Scalar>): seq<Byte> {
    if cs == [] then [] else Utf8(cs[0]) + Text(cs[1..])
  }

  lemma CharOfScalar(c: Scalar, rest: seq<Byte>)
    ensures CharLength(Utf8(c) + rest) == |Utf8(c)|
  {
  }

  lemma SixBits(high: nat, low: nat)
    requires low < 0x40
    ensures var n := high * 0x40 + low; n / 0x40 == high && Continuation(n) == 0x80 + low
  {
  }

  lemma TwoBytes(a: Byte, b: Byte) returns (c: Scalar)
    requires 0xC2 <= a <= 0xDF && 0x80 <= b <= 0xBF
    ensures Utf8(c) == [a, b]
  {
    var top: nat := a - 0xC0;
    c := top * 0x40 + (b - 0x80);
    SixBits(top, b - 0x80);
  }

  lemma ThreeBytes(a: Byte, b: Byte, d: Byte) returns (c: Scalar)
    requires 0xE0 <= a <= 0xEF && 0x80 <= b <= 0xBF && 0x80 <= d <= 0xBF
    requires (a == 0xE0 ==> 0xA0 <= b) && (a == 0xED ==> b <= 0x9F)
    ensures Utf8(c) == [a, b, d]
  {
    var top: nat := a - 0xE0;
    var mid: nat := top * 0x40 + (b - 0x80);
    c := mid * 0x40 + (d - 0x80);
    SixBits(mid, d - 0x80);
    SixBits(top, b - 0x80);
    assert c / 0x1000 == top;
  }

  lemma FourBytes(a: Byte, b: Byte, d: Byte, e: Byte) returns (c: Scalar)
    requires 0xF0 <= a <= 0xF4 && 0x80 <= b <= 0xBF && 0x80 <= d <= 0xBF && 0x80 <= e <= 0xBF
    requires (a == 0xF0 ==> 0x90 <= b) && (a == 0xF4 ==> b <= 0x8F)
    ensures Utf8(c) == [a, b, d, e]
  {
    var top: nat := a - 0xF0;
    var high: nat := top * 0x40 + (b - 0x80);
    var mid: nat := high * 0x40 + (d - 0x80);
    c := mid * 0x40 + (e - 0x80);
    SixBits(mid, e - 0x80);
    SixBits(high, d - 0x80);
    SixBits(top, b - 0x80);
    assert c / 0x1000 == high;
    assert c / 0x4_0000 == top;
  }

  lemma ScalarOfChar(bs: seq<Byte>) returns (c: Scalar)
    requires CharLength(bs) > 0
    ensures Utf8(c) == bs[..CharLength(bs)]
  {
    var n := CharLength(bs);
    if n == 1 { c := bs[0]; }
    else if n == 2 { c := TwoBytes(bs[0], bs[1]); }
    else if n == 3 { c := ThreeBytes(bs[0], bs[1], bs[2]); }
    else { c := FourBytes(bs[0], bs[1], bs[2], bs[3]); }
  }

  lemma {:induction false} TextIsValid(cs: seq<Scalar>)
    ensures ValidUtf8(Text(cs))
  {
    if cs == [] {
    } else {
      CharOfScalar(cs[0], Text(cs[1..]));
      assert Text(cs)[|Utf8(cs[0])|..] == Text(cs[1..]);
      TextIsValid(cs[1..]);
    }
  }

  lemma {:induction false} ValidIsText(bs: seq<Byte>) returns (cs: seq<Scalar>)
    requires ValidUtf8(bs)
    ensures Text(cs) == bs
    decreases |bs|
  {
    if bs == [] {
      cs := [];
    } else {
      var c := ScalarOfChar(bs);
      var others := ValidIsText(bs[CharLength(bs)..]);
      cs := [c] + others;
      assert cs[1..] == others;
      assert bs == bs[..CharLength(bs)] + bs[CharLength(bs)..];
    }
  }

  /** The strings let through are exactly the encodings of sequences of scalar values. */
  lemma Utf8Exactly(bs: seq<Byte>)
    ensures ValidUtf8(bs) <==> exists cs :: Text(cs) == bs
  {
    if ValidUtf8(bs) {
      var cs := ValidIsText(bs);
    } else if exists cs :: Text(cs) == bs {
      var cs :| Text(cs) == bs;
      TextIsValid(cs);
    }
  }

  // ----- meaning of the format -----

  /** Values the format can carry: every length fits 32 bits and no primitive is var-length. */
  predicate Encodable(a: InvokeArg) {
    match a
    case Prim(v) => FixedWidth(TypeOf(v)).Some?
    case Instance(_) => true
    case Str(s) => |s| < U32_LIMIT && ValidUtf8(s)
    case Struct(raw) => |raw| < U32_LIMIT
    case Array(es) => |es| < U32_LIMIT && forall i :: 0 <= i < |es| ==> Encodable(es[i])
    case Null => true
  }

  predicate AllEncodable(es: seq<InvokeArg>) {
    forall i :: 0 <= i < |es| ==> Encodable(es[i])
  }

  /** Encoding of one value; a length is cut to 32 bits by `LeBytes(_, 4)`. */
  function Encoding(a: InvokeArg): (bs: seq<Byte>)
    ensures |bs| > 0
    decreases a, 0
  {
    match a
    case Prim(v) => [Tag(TypeOf(v))] + MemValue.Encode(v)
    case Instance(h) => [12] + LeBytes(h, 8)
    case Str(s) => [13] + LeBytes(|s|, 4) + s
    case Struct(raw) => [14] + LeBytes(|raw|, 4) + raw
    case Array(es) => [15] + LeBytes(|es|, 4) + EncodingAll(es)
    case Null => [16]
  }

  function EncodingAll(es: seq<InvokeArg>): seq<Byte>
    decreases es, 1
  {
    if es == [] then [] else Encoding(es[0]) + EncodingAll(es[1..])
  }

  type Parsed = Option<(InvokeArg, nat)>

  /** The value at the front of `bs` and the number of bytes it takes. */
  function Parse(bs: seq<Byte>): (r: Parsed)
    ensures r.Some? ==> 0 < r.value.1 <= |bs|
    decreases |bs|, 0
  {
    if bs == [] then None
    else if bs[0] != 15 then ParseFlat(bs)
    else if |bs| < 5 then None else
    var elems := ParseMany(bs[5..], LeNat(bs[1..5]));
    if elems.None? then None else Some((Array(elems.value.0), 5 + elems.value.1))
  }

  /** The kinds that hold no other values. */
  function ParseFlat(bs: seq<Byte>): (r: Parsed)
    requires bs != [] && bs[0] != 15
    ensures r.Some? ==> 0 < r.value.1 <= |bs|
  {
    if bs[0] <= 11 then ParsePrim(bs)
    else if bs[0] == 12 then
      if |bs| < 9 then None else
      LeNatFits(bs[1..9]);
      Some((Instance(LeNat(bs[1..9])), 9))
    else if bs[0] == 13 then
      var body := Counted(bs);
      if body.None? || !ValidUtf8(body.value) then None
      else Some((Str(body.value), 5 + |body.value|))
    else if bs[0] == 14 then
      var body := Counted(bs);
      if body.None? then None else Some((Struct(body.value), 5 + |body.value|))
    else if bs[0] == 16 then Some((Null, 1))
    else None
  }

  function ParsePrim(bs: seq<Byte>): (r: Parsed)
    requires bs != [] && bs[0] <= 11
    ensures r.Some? ==> 0 < r.value.1 <= |bs|
  {
    var ty := FromTag(bs[0]).value;
    var width := FixedWidth(ty);
    if width.None? || |bs| < 1 + width.value then None else
    var v := DecodeFixed(ty, bs[1..1 + width.value]);
    if v.None? then None else Some((Prim(v.value), 1 + width.value))
  }

  /** The length-prefixed body after the tag, when it is all there. */
  function Counted(bs: seq<Byte>): (r: Option<seq<Byte>>)
    ensures r.Some? ==> 5 + |r.value| <= |bs|
  {
    if |bs| < 5 then None else
    var len := LeNat(bs[1..5]);
    if |bs| < 5 + len then None else Some(bs[5..5 + len])
  }

  /** `count` consecutive values and the number of bytes they take. */
  function ParseMany(bs: seq<Byte>, count: nat): (r: Option<(seq<InvokeArg>, nat)>)
    ensures r.Some? ==> r.value.1 <= |bs| && |r.value.0| == count
    decreases |bs|, 1, count
  {
    if count == 0 then Some(([], 0)) else
    var first := Parse(bs);
    if first.None? then None else
    var others := ParseMany(bs[first.value.1..], count - 1);
    if others.None? then None
    else Some(([first.value.0] + others.value.0, first.value.1 + others.value.1))
  }

  // ----- the loops of the source -----

  method Encode(a: InvokeArg) returns (out: seq<Byte>)
    ensures out == Encoding(a)
    decreases a
  {
    match a {
      case Prim(v) => out := [Tag(TypeOf(v))] + MemValue.Encode(v);
      case Instance(h) => out := [12] + LeBytes(h, 8);
      case Str(s) => out := [13] + LeBytes(|s|, 4) + s;
      case Struct(raw) => out := [14] + LeBytes(|raw|, 4) + raw;
      case Null => out := [16];
      case Array(es) =>
        out := [15] + LeBytes(|es|, 4);
        for i := 0 to |es|
          invariant out + EncodingAll(es[i..]) == Encoding(a)
        {
          var e := Encode(es[i]);
          assert es[i..] == [es[i]] + es[i + 1..];
          out := out + e;
        }
        assert out + EncodingAll([]) == out;
    }
  }

  /** A parse of the rest, continued after `elems` that took `n` bytes. */
  function After(elems: seq<InvokeArg>, n: nat, r: Option<(seq<InvokeArg>, nat)>): Option<(seq<InvokeArg>, nat)> {
    if r.None? then None else Some((elems + r.value.0, n + r.value.1))
  }

  lemma AfterNothing(r: Option<(seq<InvokeArg>, nat)>)
    ensures After([], 0, r) == r
  {
    if r.Some? { assert [] + r.value.0 == r.value.0; }
  }

  lemma AfterOne(bs: seq<Byte>, at: nat, left: nat, got: seq<InvokeArg>, one: (InvokeArg, nat))
    requires at <= |bs| && left > 0 && Parse(bs[at..]) == Some(one)
    ensures After(got, at, ParseMany(bs[at..], left))
         == After(got + [one.0], at + one.1, ParseMany(bs[at + one.1..], left - 1))
  {
    assert bs[at..][one.1..] == bs[at + one.1..];
    var others := ParseMany(bs[at + one.1..], left - 1);
    if others.Some? {
      assert got + ([one.0] + others.value.0) == (got + [one.0]) + others.value.0;
    }
  }

  method Decode(bs: seq<Byte>) returns (r: Parsed)
    ensures r == Parse(bs)
    decreases |bs|, 0
  {
    if bs == [] { return None; }
    if bs[0] <= 11 { return ParsePrim(bs); }
    if bs[0] == 12 {
      if |bs| < 9 { return None; }
      LeNatFits(bs[1..9]);
      return Some((Instance(LeNat(bs[1..9])), 9));
    }
    if bs[0] == 13 || bs[0] == 14 {
      if |bs| < 5 { return None; }
      var len := LeNat(bs[1..5]);
      if |bs| < 5 + len { return None; }
      if bs[0] == 14 { return Some((Struct(bs[5..5 + len]), 5 + len)); }
      if !ValidUtf8(bs[5..5 + len]) { return None; }
      return Some((Str(bs[5..5 + len]), 5 + len));
    }
    if bs[0] == 15 {
      if |bs| < 5 { return None; }
      var elems, consumed := DecodeLoop(bs[5..], LeNat(bs[1..5]));
      if elems.None? { return None; }
      return Some((Array(elems.value), 5 + consumed));
    }
    if bs[0] == 16 { return Some((Null, 1)); }
    return None;
  }

  /** One turn of the counted loop: a value is moved from the buffer to `got`. */
  method DecodeNext(bs: seq<Byte>, at: nat, ghost left: nat, got: seq<InvokeArg>)
    returns (more: Option<seq<InvokeArg>>, next: nat)
    requires at <= |bs| && left > 0
    ensures more.None? ==> After(got, at, ParseMany(bs[at..], left)) == None
    ensures more.Some? ==> next <= |bs|
    ensures more.Some? ==>
              After(got, at, ParseMany(bs[at..], left)) == After(more.value, next, ParseMany(bs[next..], left - 1))
    decreases |bs|, 1
  {
    var one := Decode(bs[at..]);
    if one.None? { return None, at; }
    AfterOne(bs, at, left, got, one.value);
    return Some(got + [one.value.0]), at + one.value.1;
  }

  /** The counted loop shared by array payloads and argument lists. */
  method DecodeLoop(bs: seq<Byte>, count: nat) returns (elems: Option<seq<InvokeArg>>, consumed: nat)
    ensures elems.None? ==> ParseMany(bs, count) == None
    ensures elems.Some? ==> ParseMany(bs, count) == Some((elems.value, consumed))
    decreases |bs|, 2
  {
    var got: seq<InvokeArg> := [];
    consumed := 0;
    assert bs[0..] == bs;
    AfterNothing(ParseMany(bs, count));
    for i := 0 to count
      invariant consumed <= |bs|
      invariant ParseMany(bs, count) == After(got, consumed, ParseMany(bs[consumed..], count - i))
    {
      elems, consumed := DecodeNext(bs, consumed, count - i, got);
      if elems.None? { return; }
      got := elems.value;
    }
    assert got + [] == got;
    elems := Some(got);
  }

  /** Argument list of `host_invoke`: a 32-bit count, then that many values. */
  function ParseArgs(buf: seq<Byte>): Option<seq<InvokeArg>> {
    if |buf| < 4 then None else
    var r := ParseMany(buf[4..], LeNat(buf[..4]));
    if r.None? then None else Some(r.value.0)
  }

  method DecodeArgs(buf: seq<Byte>) returns (args: Option<seq<InvokeArg>>)
    ensures args == ParseArgs(buf)
  {
    if |buf| < 4 { return None; }
    var n;
    args, n := DecodeLoop(buf[4..], LeNat(buf[..4]));
  }

  // ----- round trips -----

  lemma LengthField(tag: Byte, n: nat, body: seq<Byte>)
    requires n < U32_LIMIT
    ensures var bs := [tag] + LeBytes(n, 4) + body;
            LeNat(bs[1..5]) == n && bs[5..] == body && |bs| == 5 + |body|
  {
    Capacities();
    LeRoundTrip(n, 4);
    assert ([tag] + LeBytes(n, 4) + body)[1..5] == LeBytes(n, 4);
  }

  lemma ParsePrimEncoding(v: Value, rest: seq<Byte>)
    requires FixedWidth(TypeOf(v)).Some?
    ensures Parse(Encoding(Prim(v)) + rest) == Some((Prim(v), |Encoding(Prim(v))|))
  {
    FixedRoundTrip(v);
    var bs := Encoding(Prim(v)) + rest;
    assert bs[1..1 + FixedWidth(TypeOf(v)).value] == MemValue.Encode(v);
  }

  lemma ParseInstanceEncoding(h: U64, rest: seq<Byte>)
    ensures Parse(Encoding(Instance(h)) + rest) == Some((Instance(h), 9))
  {
    Capacities();
    LeRoundTrip(h, 8);
    var bs := Encoding(Instance(h)) + rest;
    assert bs[1..9] == LeBytes(h, 8);
  }

  lemma CountedEncoding(tag: Byte, body: seq<Byte>, rest: seq<Byte>)
    requires |body| < U32_LIMIT
    ensures Counted([tag] + LeBytes(|body|, 4) + body + rest) == Some(body)
  {
    LengthField(tag, |body|, body + rest);
    var bs := [tag] + LeBytes(|body|, 4) + body + rest;
    assert bs == [tag] + LeBytes(|body|, 4) + (body + rest);
    assert bs[5..5 + |body|] == body;
  }

  lemma ParseStrEncoding(s: seq<Byte>, rest: seq<Byte>)
    requires |s| < U32_LIMIT && ValidUtf8(s)
    ensures Parse(Encoding(Str(s)) + rest) == Some((Str(s), |Encoding(Str(s))|))
  {
    CountedEncoding(13, s, rest);
  }

  lemma ParseStructEncoding(raw: seq<Byte>, rest: seq<Byte>)
    requires |raw| < U32_LIMIT
    ensures Parse(Encoding(Struct(raw)) + rest) == Some((Struct(raw), |Encoding(Struct(raw))|))
  {
    CountedEncoding(14, raw, rest);
  }

  lemma ParseArray(bs: seq<Byte>, n: nat, body: seq<Byte>, r: (seq<InvokeArg>, nat))
    requires n < U32_LIMIT && bs == [15] + LeBytes(n, 4) + body
    requires ParseMany(body, n) == Some(r)
    ensures Parse(bs) == Some((Array(r.0), 5 + r.1))
  {
    LengthField(15, n, body);
  }

  lemma ParseArrayEncoding(es: seq<InvokeArg>, rest: seq<Byte>)
    requires |es| < U32_LIMIT
    requires ParseMany(EncodingAll(es) + rest, |es|) == Some((es, |EncodingAll(es)|))
    ensures Parse(Encoding(Array(es)) + rest) == Some((Array(es), |Encoding(Array(es))|))
  {
    var elems := EncodingAll(es);
    ConcatAssoc([15] + LeBytes(|es|, 4), elems, rest);
    ParseArray(Encoding(Array(es)) + rest, |es|, elems + rest, (es, |elems|));
  }

  /** Decoding an encoding followed by anything returns the value and its exact length. */
  lemma {:induction false} ParseEncoding(a: InvokeArg, rest: seq<Byte>)
    requires Encodable(a)
    ensures Parse(Encoding(a) + rest) == Some((a, |Encoding(a)|))
    decreases a, 0
  {
    match a
    case Prim(v) => ParsePrimEncoding(v, rest);
    case Instance(h) => ParseInstanceEncoding(h, rest);
    case Str(s) => ParseStrEncoding(s, rest);
    case Struct(raw) => ParseStructEncoding(raw, rest);
    case Array(es) =>
      ParseEncodingAll(es, rest);
      ParseArrayEncoding(es, rest);
    case Null =>
  }

  lemma ParseManyStep(bs: seq<Byte>, count: nat, one: (InvokeArg, nat), tail: seq<Byte>, others: (seq<InvokeArg>, nat))
    requires count > 0 && one.1 <= |bs| && bs[one.1..] == tail
    requires Parse(bs) == Some(one) && ParseMany(tail, count - 1) == Some(others)
    ensures ParseMany(bs, count) == Some(([one.0] + others.0, one.1 + others.1))
  {
  }

  lemma JoinParses(head: seq<Byte>, elems: seq<Byte>, rest: seq<Byte>, a: InvokeArg, es: seq<InvokeArg>)
    requires Parse(head + (elems + rest)) == Some((a, |head|))
    requires ParseMany(elems + rest, |es|) == Some((es, |elems|))
    ensures ParseMany(head + elems + rest, |[a] + es|) == Some(([a] + es, |head + elems|))
  {
    ConcatAssoc(head, elems, rest);
    var bs, tail := head + (elems + rest), elems + rest;
    assert bs[|head|..] == tail;
    ParseManyStep(bs, |[a] + es|, (a, |head|), tail, (es, |elems|));
  }

  lemma {:induction false} ParseEncodingAll(es: seq<InvokeArg>, rest: seq<Byte>)
    requires AllEncodable(es)
    ensures ParseMany(EncodingAll(es) + rest, |es|) == Some((es, |EncodingAll(es)|))
    decreases es, 1
  {
    if es == [] {
    } else {
      var head, elems := Encoding(es[0]), EncodingAll(es[1..]);
      ParseEncoding(es[0], elems + rest);
      ParseEncodingAll(es[1..], rest);
      JoinParses(head, elems, rest, es[0], es[1..]);
      assert es == [es[0]] + es[1..];
    }
  }

  lemma EncodingOfParseFlat(bs: seq<Byte>)
    requires bs != [] && bs[0] != 15 && ParseFlat(bs).Some?
    ensures var r := ParseFlat(bs).value; Encodable(r.0) && Encoding(r.0) == bs[..r.1]
  {
    if bs[0] <= 11 {
      var ty := FromTag(bs[0]).value;
      FixedReEncode(ty, bs[1..1 + FixedWidth(ty).value]);
    } else if bs[0] == 12 {
      LeBytesOfLeNat(bs[1..9]);
    } else if bs[0] == 13 || bs[0] == 14 {
      CountedExact(bs);
    }
  }

  lemma ArrayExact(bs: seq<Byte>, es: seq<InvokeArg>, n: nat)
    requires |bs| >= 5 && bs[0] == 15 && n <= |bs[5..]| && |es| == LeNat(bs[1..5])
    requires AllEncodable(es) && EncodingAll(es) == bs[5..][..n]
    ensures Encodable(Array(es)) && Encoding(Array(es)) == bs[..5 + n]
  {
    LengthFieldExact(bs);
    assert bs[..5 + n] == [bs[0]] + bs[1..5] + bs[5..][..n];
  }

  /** Whatever decodes re-encodes to exactly the bytes it consumed, and is encodable. */
  lemma {:induction false} EncodingOfParse(bs: seq<Byte>)
    ensures var r := Parse(bs);
            r.Some? ==> Encodable(r.value.0) && Encoding(r.value.0) == bs[..r.value.1]
    decreases |bs|, 0
  {
    if Parse(bs).Some? {
      if bs[0] == 15 {
        var (es, n) := ParseMany(bs[5..], LeNat(bs[1..5])).value;
        EncodingOfParseMany(bs[5..], LeNat(bs[1..5]));
        ArrayExact(bs, es, n);
      } else {
        EncodingOfParseFlat(bs);
      }
    }
  }

  lemma LengthFieldExact(bs: seq<Byte>)
    requires |bs| >= 5
    ensures LeNat(bs[1..5]) < U32_LIMIT
    ensures LeBytes(LeNat(bs[1..5]), 4) == bs[1..5]
  {
    LeNatFits(bs[1..5]);
    LeBytesOfLeNat(bs[1..5]);
  }

  lemma CountedExact(bs: seq<Byte>)
    requires Counted(bs).Some?
    ensures var body := Counted(bs).value;
            |body| < U32_LIMIT && [bs[0]] + LeBytes(|body|, 4) + body == bs[..5 + |body|]
  {
    LengthFieldExact(bs);
    var n := LeNat(bs[1..5]);
    assert bs[..5 + n] == [bs[0]] + bs[1..5] + bs[5..5 + n];
  }

  lemma {:induction false} EncodingOfParseMany(bs: seq<Byte>, count: nat)
    ensures var r := ParseMany(bs, count);
            r.Some? ==> AllEncodable(r.value.0) && EncodingAll(r.value.0) == bs[..r.value.1]
    decreases |bs|, 1, count
  {
    if count == 0 || ParseMany(bs, count).None? {
    } else {
      var (a, n) := Parse(bs).value;
      EncodingOfParse(bs);
      EncodingOfParseMany(bs[n..], count - 1);
      var (es, m) := ParseMany(bs[n..], count - 1).value;
      JoinEncodings(bs, a, n, es, m);
    }
  }

  lemma JoinEncodings(bs: seq<Byte>, a: InvokeArg, n: nat, es: seq<InvokeArg>, m: nat)
    requires n <= |bs| && n + m <= |bs|
    requires Encodable(a) && Encoding(a) == bs[..n]
    requires AllEncodable(es) && EncodingAll(es) == bs[n..][..m]
    ensures AllEncodable([a] + es) && EncodingAll([a] + es) == bs[..n + m]
  {
  }

  /** The encodable values are exactly those that survive the wire. */
  lemma RoundTripExactly(a: InvokeArg)
    ensures Encodable(a) <==> Parse(Encoding(a)) == Some((a, |Encoding(a)|))
  {
    assert Encoding(a) + [] == Encoding(a);
    if Encodable(a) { ParseEncoding(a, []); }
    EncodingOfParse(Encoding(a));
  }

  /** The bytes on the wire: the kind, then the handle, or a 32-bit length or count and the body. */
  lemma WireForm(a: InvokeArg)
    requires Encodable(a)
    ensures var bs := Encoding(a);
            match a
            case Prim(v) => bs[0] <= 9 && FromTag(bs[0]) == Some(TypeOf(v)) && bs[1..] == MemValue.Encode(v)
            case Instance(h) => bs[0] == 12 && |bs| == 9 && LeNat(bs[1..]) == h
            case Str(s) => bs[0] == 13 && |bs| >= 5 && LeNat(bs[1..5]) == |s| && bs[5..] == s
            case Struct(raw) => bs[0] == 14 && |bs| >= 5 && LeNat(bs[1..5]) == |raw| && bs[5..] == raw
            case Array(es) => bs[0] == 15 && |bs| >= 5 && LeNat(bs[1..5]) == |es| && bs[5..] == EncodingAll(es)
            case Null => bs == [16]
  {
    match a
    case Prim(v) =>
    case Instance(h) =>
      Capacities();
      LeRoundTrip(h, 8);
      assert Encoding(a)[1..] == LeBytes(h, 8);
    case Str(s) => LengthField(13, |s|, s);
    case Struct(raw) => LengthField(14, |raw|, raw);
    case Array(es) => LengthField(15, |es|, EncodingAll(es));
    case Null =>
  }

  /** Elements are written one after the other, in order. */
  lemma {:induction false} ElementsInOrder(es: seq<InvokeArg>, i: nat)
    requires i < |es|
    ensures EncodingAll(es) == EncodingAll(es[..i]) + Encoding(es[i]) + EncodingAll(es[i + 1..])
  {
    if i == 0 {
    } else {
      ElementsInOrder(es[1..], i - 1);
      assert es[1..][..i - 1] == es[..i][1..] && es[1..][i..] == es[i + 1..];
      ConcatAssoc(Encoding(es[0]), EncodingAll(es[..i][1..]), Encoding(es[i]));
      ConcatAssoc(Encoding(es[0]), EncodingAll(es[..i][1..]) + Encoding(es[i]), EncodingAll(es[i + 1..]));
    }
  }

  /** No encoding is a proper prefix of another, and encodings of different values differ. */
  lemma PrefixFree(a: InvokeArg, b: InvokeArg)
    requires Encodable(a) && Encodable(b)
    requires Encoding(a) <= Encoding(b)
    ensures a == b
  {
    var rest := Encoding(b)[|Encoding(a)|..];
    assert Encoding(b) == Encoding(a) + rest;
    ParseEncoding(a, rest);
    assert Encoding(b) + [] == Encoding(b);
    ParseEncoding(b, []);
  }

  lemma ParseArgsStep(buf: seq<Byte>, n: nat, body: seq<Byte>, r: (seq<InvokeArg>, nat))
    requires n < U32_LIMIT && buf == LeBytes(n, 4) + body && ParseMany(body, n) == Some(r)
    ensures ParseArgs(buf) == Some(r.0)
  {
    Capacities();
    LeRoundTrip(n, 4);
    assert buf[..4] == LeBytes(n, 4) && buf[4..] == body;
  }

  /** A count-prefixed argument list round-trips, whatever follows it. */
  lemma ArgumentListRoundTrip(args: seq<InvokeArg>, rest: seq<Byte>)
    requires AllEncodable(args) && |args| < U32_LIMIT
    ensures ParseArgs(LeBytes(|args|, 4) + EncodingAll(args) + rest) == Some(args)
  {
    var count, elems := LeBytes(|args|, 4), EncodingAll(args);
    ConcatAssoc(count, elems, rest);
    ParseEncodingAll(args, rest);
    ParseArgsStep(count + elems + rest, |args|, elems + rest, (args, |elems|));
  }

  /** A variable-length primitive is written but never read back. */
  lemma VarLengthPrimitiveLost(raw: seq<Byte>, rest: seq<Byte>)
    ensures Parse(Encoding(Prim(VBytes(raw))) + rest) == None
    ensures Parse(Encoding(Prim(VCstr(raw))) + rest) == None
  {
  }
}
