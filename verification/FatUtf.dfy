/** Names in fs/fat32.c: UTF-8 paths, UTF-16 long names (section 4 of RFC 3629, section 2 of RFC 2781). */
module FatUtf {

  datatype Result<T> = Ok(value: T) | Invalid | IllegalSequence | TooLong | NoSpace

  /** A Unicode scalar value: any code point but the surrogates. */
  predicate Scalar(c: nat) {
    c < 0xd800 || 0xe000 <= c <= 0x10ffff
  }

  /** What a name may not contain. */
  predicate Forbidden(c: nat) {
    c < 32 || c == 127 || c in {0x22, 0x2a, 0x2f, 0x3a, 0x3c, 0x3e, 0x3f, 0x5c, 0x7c}
  }

  function Utf8Of(c: nat): (r: seq<nat>)
    ensures 1 <= |r| <= 4
  {
    if c < 0x80 then [c]
    else if c < 0x800 then [0xc0 + c / 64, 0x80 + c % 64]
    else if c < 0x10000 then [0xe0 + c / 4096, 0x80 + c / 64 % 64, 0x80 + c % 64]
    else [0xf0 + c / 262144, 0x80 + c / 4096 % 64, 0x80 + c / 64 % 64, 0x80 + c % 64]
  }

  function Utf16Of(c: nat): (r: seq<nat>)
    ensures 1 <= |r| <= 2
  {
    if c < 0x10000 then [c] else [0xd800 + (c - 0x10000) / 1024, 0xdc00 + (c - 0x10000) % 1024]
  }

  function Utf8(s: seq<nat>): seq<nat> {
    if s == [] then [] else Utf8(s[..|s| - 1]) + Utf8Of(s[|s| - 1])
  }

  function Utf16(s: seq<nat>): seq<nat> {
    if s == [] then [] else Utf16(s[..|s| - 1]) + Utf16Of(s[|s| - 1])
  }

  lemma Assoc(a: seq<nat>, b: seq<nat>, c: seq<nat>)
    ensures (a + b) + c == a + (b + c)
  {}

  lemma {:induction false} Utf8Concat(a: seq<nat>, b: seq<nat>)
    ensures Utf8(a + b) == Utf8(a) + Utf8(b)
    decreases |b|
  {
    hide Utf8Of;
    if b == [] {
      assert a + b == a;
    } else {
      var n := |b| - 1;
      Utf8Concat(a, b[..n]);
      assert (a + b)[..|a| + n] == a + b[..n];
      Assoc(Utf8(a), Utf8(b[..n]), Utf8Of(b[n]));
    }
  }

  lemma {:induction false} Utf16Concat(a: seq<nat>, b: seq<nat>)
    ensures Utf16(a + b) == Utf16(a) + Utf16(b)
    decreases |b|
  {
    hide Utf16Of;
    if b == [] {
      assert a + b == a;
    } else {
      var n := |b| - 1;
      Utf16Concat(a, b[..n]);
      assert (a + b)[..|a| + n] == a + b[..n];
      Assoc(Utf16(a), Utf16(b[..n]), Utf16Of(b[n]));
    }
  }

  lemma Single(c: nat)
    ensures Utf8([c]) == Utf8Of(c) && Utf16([c]) == Utf16Of(c)
  {
    assert [c][..0] == [];
  }

  // ---------------------------------------------------------------- encode_name

  /** The lead byte: its value bits, the number of continuation bytes, and the least code point of that length. */
  function Lead(b: nat): Result<(nat, nat, nat)> {
    if b < 0x80 then Ok((b, 0, 0))
    else if 0xc2 <= b <= 0xdf then Ok((b - 0xc0, 1, 0x80))
    else if 0xe0 <= b <= 0xef then Ok((b - 0xe0, 2, 0x800))
    else if 0xf0 <= b <= 0xf4 then Ok((b - 0xf0, 3, 0x10000))
    else IllegalSequence
  }

  /** The value after `more` continuation bytes from position j. */
  function Continue(name: seq<nat>, j: nat, c: nat, more: nat): Result<nat>
    requires j + more <= |name|
    decreases more
  {
    if more == 0 then Ok(c)
    else if !(0x80 <= name[j] < 0xc0) then IllegalSequence
    else Continue(name, j + 1, c * 64 + (name[j] - 0x80), more - 1)
  }

  /** The code point at position j and the position behind it. */
  function DecodeOne(name: seq<nat>, j: nat): Result<(nat, nat)>
    requires j < |name|
  {
    var lead := Lead(name[j]);
    if !lead.Ok? || lead.value.1 > |name| - (j + 1) then IllegalSequence
    else
      var c := Continue(name, j + 1, lead.value.0, lead.value.1);
      if !c.Ok? || c.value < lead.value.2 || c.value > 0x10ffff || 0xd800 <= c.value <= 0xdfff then IllegalSequence
      else Ok((c.value, j + 1 + lead.value.1))
  }

  lemma {:induction false} ContinueBound(name: seq<nat>, j: nat, c: nat, more: nat)
    requires j + more <= |name| && Continue(name, j, c, more).Ok?
    ensures forall k :: j <= k < j + more ==> 0x80 <= name[k] < 0xc0
    ensures more == 1 ==> Continue(name, j, c, more).value == c * 64 + (name[j] - 0x80)
    ensures more == 2 ==> Continue(name, j, c, more).value == c * 4096 + (name[j] - 0x80) * 64 + (name[j + 1] - 0x80)
    ensures more == 3 ==> Continue(name, j, c, more).value
                          == c * 262144 + (name[j] - 0x80) * 4096 + (name[j + 1] - 0x80) * 64 + (name[j + 2] - 0x80)
    decreases more
  {
    if more > 0 {
      ContinueBound(name, j + 1, c * 64 + (name[j] - 0x80), more - 1);
    }
  }

  lemma TwoBytes(a: nat, b: nat)
    requires b < 64
    ensures (a * 64 + b) / 64 == a && (a * 64 + b) % 64 == b
  {}

  lemma ThreeBytes(a: nat, b: nat, d: nat)
    requires b < 64 && d < 64
    ensures var c := a * 4096 + b * 64 + d; c / 4096 == a && c / 64 % 64 == b && c % 64 == d
  {
    var c := a * 4096 + b * 64 + d;
    TwoBytes(a * 64 + b, d);
    TwoBytes(a, b);
    assert c / 64 == a * 64 + b;
  }

  lemma FourBytes(a: nat, b: nat, d: nat, e: nat)
    requires b < 64 && d < 64 && e < 64
    ensures var c := a * 262144 + b * 4096 + d * 64 + e;
            c / 262144 == a && c / 4096 % 64 == b && c / 64 % 64 == d && c % 64 == e
  {
    var c := a * 262144 + b * 4096 + d * 64 + e;
    TwoBytes(a * 4096 + b * 64 + d, e);
    ThreeBytes(a, b, d);
    assert c / 64 == a * 4096 + b * 64 + d;
    assert c / 4096 == c / 64 / 64;
    assert c / 262144 == c / 64 / 4096;
    TwoBytes(a * 64 + b, d);
    assert c / 4096 == a * 64 + b;
    TwoBytes(a, b);
  }

  /** The byte string of a code point from its parts. */
  lemma Utf8Parts(lead: nat, x: seq<nat>, c: nat)
    requires |x| <= 3 && (forall k :: 0 <= k < |x| ==> 0x80 <= x[k] < 0xc0) && c <= 0x10ffff
    requires |x| == 0 ==> lead == c < 0x80
    requires |x| == 1 ==> 0xc0 <= lead && c == (lead - 0xc0) * 64 + (x[0] - 0x80) && 0x80 <= c < 0x800
    requires |x| == 2 ==>
              0xe0 <= lead && c == (lead - 0xe0) * 4096 + (x[0] - 0x80) * 64 + (x[1] - 0x80) && 0x800 <= c < 0x10000
    requires |x| == 3 ==>
              0xf0 <= lead && c == (lead - 0xf0) * 262144 + (x[0] - 0x80) * 4096 + (x[1] - 0x80) * 64 + (x[2] - 0x80)
                  && 0x10000 <= c
    ensures Utf8Of(c) == [lead] + x
  {
    if |x| == 1 {
      TwoBytes(lead - 0xc0, x[0] - 0x80);
    } else if |x| == 2 {
      ThreeBytes(lead - 0xe0, x[0] - 0x80, x[1] - 0x80);
    } else if |x| == 3 {
      FourBytes(lead - 0xf0, x[0] - 0x80, x[1] - 0x80, x[2] - 0x80);
    }
  }

  /** What is decoded is a scalar value and its only encoding. */
  lemma DecodeOneSound(name: seq<nat>, j: nat)
    requires j < |name| && DecodeOne(name, j).Ok?
    ensures var (c, k) := DecodeOne(name, j).value; Scalar(c) && j < k <= |name| && name[j..k] == Utf8Of(c)
  {
    var lead := Lead(name[j]).value;
    var (c, k) := DecodeOne(name, j).value;
    ContinueBound(name, j + 1, lead.0, lead.1);
    hide Utf8Of, Continue;
    Utf8Parts(name[j], name[j + 1..k], c);
    assert name[j..k] == [name[j]] + name[j + 1..k];
  }

  lemma {:induction false} ContinueOk(name: seq<nat>, j: nat, c: nat, more: nat)
    requires j + more <= |name| && forall k :: j <= k < j + more ==> 0x80 <= name[k] < 0xc0
    ensures Continue(name, j, c, more).Ok?
    decreases more
  {
    if more > 0 {
      ContinueOk(name, j + 1, c * 64 + (name[j] - 0x80), more - 1);
    }
  }

  /** The shape of an encoding: what the lead byte says, and how the bits recombine. */
  lemma Utf8Shape(c: nat)
    requires Scalar(c)
    ensures var u := Utf8Of(c);
            && (forall k :: 1 <= k < |u| ==> 0x80 <= u[k] < 0xc0)
            && Lead(u[0]).Ok? && Lead(u[0]).value.1 == |u| - 1 && Lead(u[0]).value.2 <= c
            && (|u| == 1 ==> Lead(u[0]).value.0 == c)
            && (|u| == 2 ==> c == Lead(u[0]).value.0 * 64 + (u[1] - 0x80))
            && (|u| == 3 ==> c == Lead(u[0]).value.0 * 4096 + (u[1] - 0x80) * 64 + (u[2] - 0x80))
            && (|u| == 4 ==>
               c == Lead(u[0]).value.0 * 262144 + (u[1] - 0x80) * 4096 + (u[2] - 0x80) * 64 + (u[3] - 0x80))
  {
    assert c / 4096 == c / 64 / 64;
    assert c / 262144 == c / 64 / 64 / 64;
  }

  /** Every encoding of a scalar value is decoded. */
  lemma DecodeOneComplete(name: seq<nat>, j: nat, c: nat)
    requires Scalar(c) && j + |Utf8Of(c)| <= |name| && name[j..j + |Utf8Of(c)|] == Utf8Of(c)
    ensures DecodeOne(name, j) == Ok((c, j + |Utf8Of(c)|))
  {
    Utf8Shape(c);
    hide Utf8Of, Continue, Lead;
    var u := Utf8Of(c);
    forall k | 0 <= k < |u| ensures name[j + k] == u[k] {
      assert name[j..j + |u|][k] == u[k];
    }
    assert name[j] == u[0];
    var lead := Lead(u[0]).value;
    forall k | j + 1 <= k < j + |u| ensures 0x80 <= name[k] < 0xc0 {
      assert name[j + (k - j)] == u[k - j];
    }
    ContinueOk(name, j + 1, lead.0, lead.1);
    ContinueBound(name, j + 1, lead.0, lead.1);
    ContinueNone(name, j + 1, lead.0);
  }

  lemma ContinueNone(name: seq<nat>, j: nat, c: nat)
    requires j <= |name|
    ensures Continue(name, j, c, 0) == Ok(c)
  {}

  /** The loop of `encode_name` from position j, with the units so far. */
  function EncodeFrom(name: seq<nat>, j: nat, u: seq<nat>): Result<seq<nat>>
    decreases |name| - j
  {
    if j >= |name| then Ok(u)
    else
      var r := DecodeOne(name, j);
      if !r.Ok? then IllegalSequence
      else if Forbidden(r.value.0) then Invalid
      else if |u| + |Utf16Of(r.value.0)| > 255 then TooLong
      else if r.value.1 <= j then IllegalSequence
      else EncodeFrom(name, r.value.1, u + Utf16Of(r.value.0))
  }

  predicate BadEnd(name: seq<nat>) {
    name == [] || name[|name| - 1] == 0x20 || name[|name| - 1] == 0x2e
  }

  /** `encode_name` */
  function EncodeName(name: seq<nat>): Result<seq<nat>> {
    if BadEnd(name) then Invalid else EncodeFrom(name, 0, [])
  }

  lemma {:induction false} EncodeNotFull(name: seq<nat>, j: nat, u: seq<nat>)
    ensures !EncodeFrom(name, j, u).NoSpace?
    decreases |name| - j
  {
    hide DecodeOne, Forbidden, Utf16Of;
    if j < |name| && DecodeOne(name, j).Ok? {
      var (c, k) := DecodeOne(name, j).value;
      if k > j {
        EncodeNotFull(name, k, u + Utf16Of(c));
      }
    }
  }

  /** The encoder's errors are its own three. */
  lemma EncodeErrors(name: seq<nat>)
    ensures !EncodeName(name).NoSpace?
  {
    hide EncodeFrom;
    EncodeNotFull(name, 0, []);
  }

  /** s spells a name that can be stored. */
  ghost predicate Storable(s: seq<nat>) {
    (forall i :: 0 <= i < |s| ==> Scalar(s[i]) && !Forbidden(s[i])) && |Utf16(s)| <= 255 && !BadEnd(Utf8(s))
  }

  lemma {:induction false} EncodeSound(name: seq<nat>, j: nat, s: seq<nat>, u: seq<nat>) returns (t: seq<nat>)
    requires j <= |name| && name[..j] == Utf8(s) && EncodeFrom(name, j, Utf16(s)) == Ok(u)
    requires (forall i :: 0 <= i < |s| ==> Scalar(s[i]) && !Forbidden(s[i])) && |Utf16(s)| <= 255
    ensures name == Utf8(t) && u == Utf16(t) && |u| <= 255
              && forall i :: 0 <= i < |t| ==> Scalar(t[i]) && !Forbidden(t[i])
    decreases |name| - j
  {
    if j == |name| {
      assert name[..j] == name;
      t := s;
    } else {
      var (c, k) := DecodeOne(name, j).value;
      DecodeOneSound(name, j);
      hide Utf8Of, Utf16Of, DecodeOne, Scalar, Forbidden;
      var s' := s + [c];
      Utf8Concat(s, [c]);
      Utf16Concat(s, [c]);
      Single(c);
      assert name[..k] == name[..j] + name[j..k];
      t := EncodeSound(name, k, s', u);
    }
  }

  lemma EncodeStep(name: seq<nat>, j: nat, u: seq<nat>, c: nat)
    requires Scalar(c) && !Forbidden(c) && |u| + |Utf16Of(c)| <= 255
    requires j + |Utf8Of(c)| <= |name| && name[j..j + |Utf8Of(c)|] == Utf8Of(c)
    ensures EncodeFrom(name, j, u) == EncodeFrom(name, j + |Utf8Of(c)|, u + Utf16Of(c))
  {
    hide Utf8Of, Utf16Of, DecodeOne, Scalar, Forbidden;
    DecodeOneComplete(name, j, c);
  }

  /** Where the code point behind a prefix lies in the encodings. */
  lemma NextPoint(a: seq<nat>, c: nat, rest: seq<nat>, name: seq<nat>)
    requires name == Utf8(a + [c] + rest)
    ensures |Utf8(a + [c])| == |Utf8(a)| + |Utf8Of(c)| <= |name|
    ensures name[|Utf8(a)|..|Utf8(a)| + |Utf8Of(c)|] == Utf8Of(c)
    ensures Utf16(a + [c]) == Utf16(a) + Utf16Of(c) && |Utf16(a + [c])| <= |Utf16(a + [c] + rest)|
  {
    hide Utf8, Utf16, Utf8Of, Utf16Of;
    Single(c);
    Utf8Concat(a, [c]);
    Utf16Concat(a, [c]);
    Utf8Concat(a + [c], rest);
    Utf16Concat(a + [c], rest);
  }

  lemma {:induction false} EncodeComplete(a: seq<nat>, b: seq<nat>, name: seq<nat>)
    requires name == Utf8(a + b) && |Utf16(a + b)| <= 255
    requires forall i :: 0 <= i < |b| ==> Scalar(b[i]) && !Forbidden(b[i])
    ensures EncodeFrom(name, |Utf8(a)|, Utf16(a)) == Ok(Utf16(a + b))
    decreases |b|
  {
    hide Utf8, Utf16, Utf8Of, Utf16Of, DecodeOne, Scalar, Forbidden;
    if b == [] {
      assert a + b == a;
    } else {
      var c, rest := b[0], b[1..];
      assert a + b == a + [c] + rest;
      NextPoint(a, c, rest, name);
      hide EncodeFrom;
      EncodeStep(name, |Utf8(a)|, Utf16(a), c);
      EncodeComplete(a + [c], rest, name);
    }
  }

  /** `encode_name` accepts exactly the storable names, and yields their UTF-16 units. */
  lemma EncodeCorrect(name: seq<nat>, u: seq<nat>)
    ensures EncodeName(name) == Ok(u) <==> exists s :: Storable(s) && name == Utf8(s) && u == Utf16(s)
  {
    hide Utf8Of, Utf16Of, DecodeOne, Scalar, Forbidden;
    if EncodeName(name) == Ok(u) {
      assert name[..0] == Utf8([]) && Utf16([]) == [];
      var t := EncodeSound(name, 0, [], u);
      assert Storable(t);
    }
    if s :| Storable(s) && name == Utf8(s) && u == Utf16(s) {
      assert [] + s == s;
      EncodeComplete([], s, name);
    }
  }

  /** One code point, with the loop over its continuation bytes. */
  method DecodeNext(name: seq<nat>, from: nat) returns (r: Result<(nat, nat)>)
    requires from < |name|
    ensures r == DecodeOne(name, from)
  {
    var lead := Lead(name[from]);
    if !lead.Ok? || lead.value.1 > |name| - (from + 1) {
      return IllegalSequence;
    }
    var c: nat, more: nat, j := lead.value.0, lead.value.1, from + 1;
    while more > 0
      invariant j + more == from + 1 + lead.value.1 <= |name|
      invariant Continue(name, j, c, more) == Continue(name, from + 1, lead.value.0, lead.value.1)
    {
      if !(0x80 <= name[j] < 0xc0) {
        return IllegalSequence;
      }
      c := c * 64 + (name[j] - 0x80);
      j, more := j + 1, more - 1;
    }
    if c < lead.value.2 || c > 0x10ffff || 0xd800 <= c <= 0xdfff {
      return IllegalSequence;
    }
    return Ok((c, j));
  }

  /** The loop of `encode_name`. */
  method Encode(name: seq<nat>) returns (r: Result<seq<nat>>)
    ensures r == EncodeName(name)
  {
    hide DecodeOne, Utf16Of, Forbidden;
    if BadEnd(name) {
      return Invalid;
    }
    var u: seq<nat>, j: nat := [], 0;
    while j < |name|
      invariant j <= |name| && EncodeName(name) == EncodeFrom(name, j, u)
      decreases |name| - j
    {
      var d := DecodeNext(name, j);
      if !d.Ok? {
        return IllegalSequence;
      }
      DecodeOneSound(name, j);
      if Forbidden(d.value.0) {
        return Invalid;
      }
      if |u| + |Utf16Of(d.value.0)| > 255 {
        return TooLong;
      }
      u := u + Utf16Of(d.value.0);
      j := d.value.1;
    }
    return Ok(u);
  }

  // ---------------------------------------------------------------- utf16_name

  const UNITS: nat := 260

  /** The unit buffer of a name: the units, a zero, and 0xffff to the end. */
  function Padded(u: seq<nat>): (r: seq<nat>)
    requires |u| < UNITS
    ensures |r| == UNITS
  {
    u + [0] + seq(UNITS - |u| - 1, _ => 0xffff)
  }

  /** `utf16_name` from position j, with the bytes so far. */
  function NameFrom(u: seq<nat>, units: nat, j: nat, out: seq<nat>): Result<seq<nat>>
    requires units <= |u|
    decreases units - j
  {
    if j >= units || u[j] == 0 || u[j] == 0xffff then Ok(out)
    else if j >= 255 then IllegalSequence
    else if 0xd800 <= u[j] <= 0xdbff then
      if j + 1 >= units || !(0xdc00 <= u[j + 1] <= 0xdfff) then IllegalSequence
      else NameFrom(u, units, j + 2, out + Utf8Of(0x10000 + (u[j] - 0xd800) * 1024 + (u[j + 1] - 0xdc00)))
    else if 0xdc00 <= u[j] <= 0xdfff then IllegalSequence
    else NameFrom(u, units, j + 1, out + Utf8Of(u[j]))
  }

  /** The loop of `utf16_name`. */
  method Decode(u: seq<nat>, units: nat) returns (r: Result<seq<nat>>)
    requires units <= |u|
    ensures r == NameFrom(u, units, 0, [])
  {
    hide Utf8Of;
    var out: seq<nat>, j: nat := [], 0;
    while j < units && u[j] != 0 && u[j] != 0xffff
      invariant NameFrom(u, units, 0, []) == NameFrom(u, units, j, out)
      decreases units - j
    {
      if j >= 255 {
        return IllegalSequence;
      }
      var c := u[j];
      if 0xd800 <= c <= 0xdbff {
        if j + 1 >= units || u[j + 1] < 0xdc00 || u[j + 1] > 0xdfff {
          return IllegalSequence;
        }
        j := j + 1;
        c := 0x10000 + (c - 0xd800) * 1024 + (u[j] - 0xdc00);
      } else if 0xdc00 <= c <= 0xdfff {
        return IllegalSequence;
      }
      out := out + Utf8Of(c);
      j := j + 1;
    }
    return Ok(out);
  }

  /** The part of a name before the first U+FFFF. */
  function Before(s: seq<nat>): seq<nat> {
    if s == [] || s[0] == 0xffff then [] else [s[0]] + Before(s[1..])
  }

  lemma {:induction false} BeforeAll(s: seq<nat>)
    ensures Before(s) == s <==> 0xffff !in s
    ensures |Before(s)| <= |s|
    decreases |s|
  {
    if s != [] && s[0] != 0xffff {
      BeforeAll(s[1..]);
      assert s == [s[0]] + s[1..];
      assert Before(s)[1..] == Before(s[1..]);
    }
  }

  lemma Utf16Shape(c: nat)
    requires Scalar(c) && c != 0 && c != 0xffff
    ensures var x := Utf16Of(c);
            && x[0] != 0 && x[0] != 0xffff
            && (|x| == 1 ==> x[0] == c && !(0xd800 <= c <= 0xdfff))
            && (|x| == 2 ==> 0xd800 <= x[0] <= 0xdbff && 0xdc00 <= x[1] <= 0xdfff
                             && c == 0x10000 + (x[0] - 0xd800) * 1024 + (x[1] - 0xdc00))
  {}

  lemma NameStep(u: seq<nat>, units: nat, j: nat, out: seq<nat>, c: nat)
    requires units <= |u| && Scalar(c) && c != 0 && c != 0xffff && j < 255
    requires j + |Utf16Of(c)| <= units && u[j..j + |Utf16Of(c)|] == Utf16Of(c)
    ensures NameFrom(u, units, j, out) == NameFrom(u, units, j + |Utf16Of(c)|, out + Utf8Of(c))
  {
    Utf16Shape(c);
    hide Utf8Of, Utf16Of, Scalar;
    var x := Utf16Of(c);
    assert u[j] == u[j..j + |x|][0] == x[0];
    if |x| == 2 {
      assert u[j + 1] == u[j..j + |x|][1] == x[1];
    }
  }

  lemma NextUnits(a: seq<nat>, c: nat, rest: seq<nat>)
    ensures var u := Utf16(a + [c] + rest);
            && |Utf16(a)| + |Utf16Of(c)| <= |u| && u[|Utf16(a)|..|Utf16(a)| + |Utf16Of(c)|] == Utf16Of(c)
            && |Utf16(a + [c])| == |Utf16(a)| + |Utf16Of(c)|
            && Utf8(a + [c]) == Utf8(a) + Utf8Of(c)
  {
    hide Utf8, Utf16, Utf8Of, Utf16Of;
    Single(c);
    Utf8Concat(a, [c]);
    Utf16Concat(a, [c]);
    Utf16Concat(a + [c], rest);
  }

  /** Reading a padded name gives the part before the first U+FFFF. */
  lemma {:induction false} NameIs(a: seq<nat>, b: seq<nat>, units: nat)
    requires |Utf16(a + b)| <= 255 && |Utf16(a + b)| <= units <= UNITS
    requires forall i :: 0 <= i < |b| ==> Scalar(b[i]) && !Forbidden(b[i])
    ensures NameFrom(Padded(Utf16(a + b)), units, |Utf16(a)|, Utf8(a)) == Ok(Utf8(a + Before(b)))
    decreases |b|
  {
    hide Utf8, Utf16, Utf8Of, Utf16Of, Scalar;
    var w := Utf16(a + b);
    var u := Padded(w);
    if b == [] {
      assert a + b == a && a + Before(b) == a;
      assert |w| < units ==> u[|w|] == 0;
    } else {
      var c, rest := b[0], b[1..];
      assert a + b == a + [c] + rest;
      NextUnits(a, c, rest);
      var j := |Utf16(a)|;
      assert u[j..j + |Utf16Of(c)|] == w[j..j + |Utf16Of(c)|];
      if c == 0xffff {
        LastUnit(c);
        assert u[j] == u[j..j + |Utf16Of(c)|][0] == 0xffff;
        assert a + Before(b) == a;
      } else {
        hide NameFrom, Padded;
        assert !Forbidden(c);
        NameStep(u, units, j, Utf8(a), c);
        NameIs(a + [c], rest, units);
        assert a + Before(b) == a + [c] + Before(rest);
      }
    }
  }

  lemma LastUnit(c: nat)
    requires c == 0xffff
    ensures Utf16Of(c) == [0xffff]
  {}

  lemma {:induction false} Utf8Grows(s: seq<nat>)
    ensures |Utf8(s)| >= |s|
  {
    if s != [] {
      Utf8Grows(s[..|s| - 1]);
    }
  }

  lemma {:induction false} BeforePrefix(s: seq<nat>)
    ensures Before(s) <= s
    decreases |s|
  {
    if s != [] && s[0] != 0xffff {
      BeforePrefix(s[1..]);
    }
  }

  /** Cutting at the first U+FFFF changes the bytes unless there is none. */
  lemma BeforeSame(s: seq<nat>)
    ensures Utf8(Before(s)) == Utf8(s) <==> 0xffff !in s
  {
    BeforeAll(s);
    BeforePrefix(s);
    hide Utf8Of, Before;
    var rest := s[|Before(s)|..];
    assert s == Before(s) + rest;
    Utf8Concat(Before(s), rest);
    Utf8Grows(rest);
    hide Utf8;
  }

  lemma EmptyName()
    ensures Utf8([]) == [] && Utf16([]) == []
  {}

  /** The code points of a storable name. */
  ghost predicate Spells(s: seq<nat>, name: seq<nat>, u: seq<nat>) {
    Storable(s) && name == Utf8(s) && u == Utf16(s)
  }

  lemma EncodedLength(name: seq<nat>, u: seq<nat>)
    requires EncodeName(name) == Ok(u)
    ensures 0 < |u| <= 255
  {
    hide EncodeName, Utf8Of, Utf16Of, Scalar, Forbidden;
    EncodeCorrect(name, u);
    var s :| Storable(s) && name == Utf8(s) && u == Utf16(s);
    assert s != [];
  }

  /** A stored name is read back up to its first U+FFFF: as itself if and only if it contains none. */
  lemma NameRoundTrip(name: seq<nat>, u: seq<nat>, units: nat) returns (s: seq<nat>)
    requires EncodeName(name) == Ok(u) && |u| <= units <= UNITS
    ensures Spells(s, name, u) && |u| <= 255
    ensures NameFrom(Padded(u), units, 0, []) == Ok(Utf8(Before(s)))
    ensures NameFrom(Padded(u), units, 0, []) == Ok(name) <==> 0xffff !in s
  {
    hide EncodeName, NameFrom, Utf8Of, Utf16Of, Scalar, Forbidden, Padded, Utf8, Utf16, Before;
    EncodeCorrect(name, u);
    s :| Storable(s) && name == Utf8(s) && u == Utf16(s);
    assert [] + s == s && [] + Before(s) == Before(s);
    EmptyName();
    NameIs([], s, units);
    BeforeSame(s);
  }

  lemma SuffixPoints()
    ensures Utf8Of(0x61) == [0x61] && Utf8Of(0xffff) == [0xef, 0xbf, 0xbf]
    ensures Utf16Of(0x61) == [0x61] && Utf16Of(0xffff) == [0xffff]
    ensures Scalar(0x61) && Scalar(0xffff) && !Forbidden(0x61) && !Forbidden(0xffff)
  {}

  lemma TwoPoints(a: nat, b: nat)
    ensures Utf8([a, b]) == Utf8Of(a) + Utf8Of(b) && Utf16([a, b]) == Utf16Of(a) + Utf16Of(b)
    ensures a != 0xffff && b == 0xffff ==> Before([a, b]) == [a]
  {
    hide Utf8Of, Utf16Of;
    Single(a);
    Single(b);
    Utf8Concat([a], [b]);
    Utf16Concat([a], [b]);
    hide Utf8, Utf16;
    assert [a] + [b] == [a, b] && [a, b][1..] == [b];
  }

  lemma SuffixStorable(s: seq<nat>)
    requires s == [0x61, 0xffff]
    ensures Utf8(s) == [0x61, 0xef, 0xbf, 0xbf] && Utf16(s) == [0x61, 0xffff] && Utf8([0x61]) == [0x61]
    ensures Storable(s) && Before(s) == [0x61]
  {
    hide Utf8Of, Utf16Of, Scalar, Forbidden, Utf8, Utf16, Before;
    SuffixPoints();
    TwoPoints(0x61, 0xffff);
    Single(0x61);
  }

  /** The name "a" followed by U+FFFF is accepted, and read back as "a". */
  lemma LostSuffix()
    ensures EncodeName([0x61, 0xef, 0xbf, 0xbf]) == Ok([0x61, 0xffff])
    ensures NameFrom(Padded([0x61, 0xffff]), 13, 0, []) == Ok([0x61])
  {
    hide Utf8Of, Utf16Of, Scalar, Forbidden, Utf8, Utf16, Before, EncodeName, NameFrom, Padded, Storable;
    var s: seq<nat> := [0x61, 0xffff];
    SuffixStorable(s);
    EncodeCorrect(Utf8(s), Utf16(s));
    assert [] + s == s && [] + Before(s) == Before(s);
    EmptyName();
    StorablePoints(s);
    NameIs([], s, 13);
  }

  lemma StorablePoints(s: seq<nat>)
    requires Storable(s)
    ensures |Utf16(s)| <= 255 && forall i :: 0 <= i < |s| ==> Scalar(s[i]) && !Forbidden(s[i])
  {}
}
