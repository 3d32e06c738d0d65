/** The game plugin's reading of the session token it is given: the
    base64url decoder of section 5 of RFC 4648 and the extraction of the
    token's payload segment, whose `exp` claim tells when the token expires
    (section 7.2 of RFC 7519).

    Strings are sequences of characters and the decoder's output is a
    sequence of bytes. The JSON parse and the `exp` lookup are parameters. */
module Plugin {
  import opened Common

  type byte = x: int | 0 <= x < 256

  /** The 64-character alphabet the decoder searches, in value order. */
  const Chars: string := "ABCDEFGHIJKLMNOPQRSTUVWXYZ" + "abcdefghijklmnopqrstuvwxyz" + "0123456789" + "+/"

  /** The character of value `i` in the standard alphabet. */
  function StdChar(i: nat): char
    requires i < 64
  {
    if i < 26 then ('A' as int + i) as char
    else if i < 52 then ('a' as int + i - 26) as char
    else if i < 62 then ('0' as int + i - 52) as char
    else if i == 62 then '+' else '/'
  }

  /** The character of value `i` in the URL-safe alphabet. */
  function UrlChar(i: nat): char
    requires i < 64
  {
    if i == 62 then '-' else if i == 63 then '_' else StdChar(i)
  }

  /** `n` consecutive characters from `first` on. */
  function Run(first: char, n: nat): (r: string)
    requires first as int + n <= 128
    ensures |r| == n && forall k :: 0 <= k < n ==> r[k] == (first as int + k) as char
  {
    seq(n, k requires 0 <= k < n => (first as int + k) as char)
  }

  /** The literal alphabet is the four ranges in order. */
  lemma AlphabetLayout()
    ensures |Chars| == 64
    ensures forall i :: 0 <= i < 64 ==> Chars[i] == StdChar(i)
  {
    var upper, lower, digits := Run('A', 26), Run('a', 26), Run('0', 10);
    assert upper == "ABCDEFGHIJKLMNOPQRSTUVWXYZ";
    assert lower == "abcdefghijklmnopqrstuvwxyz";
    assert digits == "0123456789";
    assert Chars == upper + lower + digits + "+/";
  }

  /** The value of a character of the standard alphabet, by its range. */
  function ValueOf(c: char): (r: Option<nat>)
    ensures r.Some? ==> r.value < 64 && StdChar(r.value) == c
  {
    if 'A' <= c <= 'Z' then Some(c as int - 'A' as int)
    else if 'a' <= c <= 'z' then Some(c as int - 'a' as int + 26)
    else if '0' <= c <= '9' then Some(c as int - '0' as int + 52)
    else if c == '+' then Some(62)
    else if c == '/' then Some(63)
    else None
  }

  lemma ValueOfStdChar(i: nat)
    requires i < 64
    ensures ValueOf(StdChar(i)) == Some(i)
  {
  }

  /** `chars.find(c)` is the value of `c`, and `npos` exactly for the
      characters outside the alphabet. */
  lemma FindIsValueOf(c: char)
    ensures Find(Chars, c, 0) == ValueOf(c)
  {
    AlphabetLayout();
    forall j | 0 <= j < 64
      ensures ValueOf(Chars[j]) == Some(j)
    {
      ValueOfStdChar(j);
    }
    var r := Find(Chars, c, 0);
    match ValueOf(c)
    case Some(v) =>
      assert Chars[v] == c;
    case None =>
      assert c !in Chars;
  }

  /** `std::replace`: every `from` becomes `to`. */
  function Replaced(s: string, from: char, to: char): (r: string)
    ensures |r| == |s|
    ensures forall k :: 0 <= k < |s| ==> r[k] == if s[k] == from then to else s[k]
  {
    if s == [] then [] else [if s[0] == from then to else s[0]] + Replaced(s[1..], from, to)
  }

  method Replace(s: string, from: char, to: char) returns (r: string)
    ensures r == Replaced(s, from, to)
  {
    r := s;
    var i := 0;
    while i < |r|
      invariant 0 <= i <= |r| == |s|
      invariant forall k :: 0 <= k < i ==> r[k] == if s[k] == from then to else s[k]
      invariant forall k :: i <= k < |r| ==> r[k] == s[k]
    {
      if r[i] == from {
        r := r[i := to];
      }
      i := i + 1;
    }
  }

  function StdOf(c: char): char
  {
    if c == '-' then '+' else if c == '_' then '/' else c
  }

  function UrlOf(c: char): char
  {
    if c == '+' then '-' else if c == '/' then '_' else c
  }

  /** The URL-safe spelling turned into the standard one. */
  function ToStd(s: string): (r: string)
    ensures |r| == |s| && forall k :: 0 <= k < |s| ==> r[k] == StdOf(s[k])
  {
    if s == [] then [] else [StdOf(s[0])] + ToStd(s[1..])
  }

  /** The standard spelling turned into the URL-safe one. */
  function ToUrl(s: string): (r: string)
    ensures |r| == |s| && forall k :: 0 <= k < |s| ==> r[k] == UrlOf(s[k])
  {
    if s == [] then [] else [UrlOf(s[0])] + ToUrl(s[1..])
  }

  function Equals(n: nat): (r: string)
    ensures |r| == n && forall k :: 0 <= k < n ==> r[k] == '='
  {
    if n == 0 then [] else Equals(n - 1) + "="
  }

  /** `s` with `=` appended up to a multiple of four characters. */
  function Padded(s: string): string
  {
    s + Equals((4 - |s| % 4) % 4)
  }

  /** Padding keeps `s` as a prefix and adds the fewest `=` that reach a
      multiple of four. */
  lemma PaddedShape(s: string)
    ensures |Padded(s)| % 4 == 0 && |Padded(s)| < |s| + 4 && StartsWith(Padded(s), s)
    ensures forall k :: |s| <= k < |Padded(s)| ==> Padded(s)[k] == '='
    ensures forall m :: |s| <= m < |Padded(s)| ==> m % 4 != 0
  {
    assert Padded(s)[..|s|] == s;
    PadLength(|s|);
  }

  /** The values of the characters the decoding loop consumes: it stops at
      the first `=` and at the first character outside the alphabet. */
  function Sextets(t: string): (v: seq<nat>)
    ensures |v| <= |t|
    ensures forall k :: 0 <= k < |v| ==> v[k] < 64
  {
    if t == [] || t[0] == '=' || ValueOf(t[0]).None? then []
    else [ValueOf(t[0]).value] + Sextets(t[1..])
  }

  /** The accumulator loop run over the values `v`, after it has emitted
      `out`: `val` collects six bits per value, and each time eight bits
      are pending (`valb >= 0`) the byte above the `valb` low bits is
      appended (`(val >> valb) & 0xFF`). */
  function DecodeAcc(v: seq<nat>, val: nat, valb: int, out: seq<byte>): seq<byte>
    requires -8 <= valb < 0
  {
    if v == [] then out
    else
      var val' := val * 64 + v[0];
      if valb + 6 >= 0 then DecodeAcc(v[1..], val', valb + 6 - 8, out + [(val' / Pow2(valb + 6)) % 256])
      else DecodeAcc(v[1..], val', valb + 6, out)
  }

  /** Padding reaches the next multiple of four, and no length before it
      is one. */
  lemma PadLength(n: nat)
    ensures (n + (4 - n % 4) % 4) % 4 == 0
    ensures forall m :: n <= m < n + (4 - n % 4) % 4 ==> m % 4 != 0
  {
  }

  /** The values read from position `i` on: none at a stop character,
      otherwise that character's value followed by those from `i + 1`. */
  lemma SextetsAt(t: string, i: nat)
    requires i < |t|
    ensures t[i] == '=' || ValueOf(t[i]).None? ==> Sextets(t[i..]) == []
    ensures t[i] != '=' && ValueOf(t[i]).Some? ==>
      Sextets(t[i..]) == [ValueOf(t[i]).value] + Sextets(t[i + 1..])
  {
    assert t[i..][0] == t[i];
    assert t[i..][1..] == t[i + 1..];
  }

  /** One step of the accumulator loop. */
  lemma DecodeAccStep(x: nat, rest: seq<nat>, val: nat, valb: int, out: seq<byte>)
    requires -8 <= valb < 0
    ensures valb + 6 >= 0 ==>
      DecodeAcc([x] + rest, val, valb, out) == DecodeAcc(rest, val * 64 + x, valb - 2, out + [((val * 64 + x) / Pow2(valb + 6)) % 256])
    ensures valb + 6 < 0 ==> DecodeAcc([x] + rest, val, valb, out) == DecodeAcc(rest, val * 64 + x, valb + 6, out)
  {
    assert ([x] + rest)[1..] == rest;
  }

  /** One turn of the decoding loop at a character of the alphabet, from
      the state `val, valb, out` to the state `val', valb', out'`, leaves
      what the whole input decodes to unchanged. */
  lemma DecodeLoopStep(t: string, i: nat, val: nat, valb: int, out: seq<byte>, val': nat, valb': int, out': seq<byte>)
    requires i < |t| && t[i] != '=' && ValueOf(t[i]).Some? && -8 <= valb < 0
    requires val' == val * 64 + ValueOf(t[i]).value
    requires valb + 6 >= 0 ==> valb' == valb - 2 && out' == out + [(val' / Pow2(valb + 6)) % 256]
    requires valb + 6 < 0 ==> valb' == valb + 6 && out' == out
    ensures -8 <= valb' < 0
    ensures DecodeAcc(Sextets(t[i + 1..]), val', valb', out') == DecodeAcc(Sextets(t[i..]), val, valb, out)
  {
    SextetsAt(t, i);
    DecodeAccStep(ValueOf(t[i]).value, Sextets(t[i + 1..]), val, valb, out);
  }

  /** What `Base64UrlDecode` returns for `input`. */
  function Decode(input: string): seq<byte>
  {
    DecodeAcc(Sextets(Padded(ToStd(input))), 0, -8, [])
  }

  /** Both replacements together spell `s` in the standard alphabet. */
  lemma ReplacesGiveStd(s: string)
    ensures Replaced(Replaced(s, '-', '+'), '_', '/') == ToStd(s)
  {
    var a, b := Replaced(Replaced(s, '-', '+'), '_', '/'), ToStd(s);
    forall k | 0 <= k < |s|
      ensures a[k] == b[k]
    {
    }
  }

  /** The padding loop of `Base64UrlDecode`: append `=` until the length
      is a multiple of four. */
  method Pad(s: string) returns (t: string)
    ensures t == Padded(s)
  {
    t := s;
    ghost var need := (4 - |s| % 4) % 4;
    PadLength(|s|);
    while |t| % 4 != 0
      invariant |s| <= |t| <= |s| + need && t == s + Equals(|t| - |s|)
      decreases need - (|t| - |s|)
    {
      t := t + "=";
    }
  }

  /** `Base64UrlDecode`: map the URL-safe characters to the standard ones,
      pad with `=`, and decode until the first `=` or foreign character. */
  method Base64UrlDecode(input: string) returns (out: seq<byte>)
    ensures out == Decode(input)
  {
    var temp := Replace(input, '-', '+');
    temp := Replace(temp, '_', '/');
    ReplacesGiveStd(input);
    temp := Pad(temp);

    out := [];
    var val: nat := 0;
    var valb := -8;
    var i := 0;
    assert temp[0..] == temp;
    while i < |temp|
      invariant 0 <= i <= |temp|
      invariant -8 <= valb < 0
      invariant DecodeAcc(Sextets(temp[i..]), val, valb, out) == Decode(input)
    {
      SextetsAt(temp, i);
      var c := temp[i];
      if c == '=' {
        break;
      }
      var idx := Find(Chars, c, 0);
      FindIsValueOf(c);
      if idx.None? {
        break;
      }
      ghost var (val0, valb0, out0) := (val, valb, out);
      val := val * 64 + idx.value;
      valb := valb + 6;
      if valb >= 0 {
        out := out + [(val / Pow2(valb)) % 256];
        valb := valb - 8;
      }
      DecodeLoopStep(temp, i, val0, valb0, out0, val, valb, out);
      i := i + 1;
    }
  }

  /** Each consumed value yields six bits and each byte takes eight: the
      output has floor(6k/8) bytes for k values. */
  lemma {:induction false} DecodeAccLength(v: seq<nat>, val: nat, valb: int, out: seq<byte>)
    requires -8 <= valb < 0
    ensures |DecodeAcc(v, val, valb, out)| == |out| + (valb + 8 + 6 * |v|) / 8
  {
    if v != [] {
      var val' := val * 64 + v[0];
      if valb + 6 >= 0 {
        DecodeAccLength(v[1..], val', valb - 2, out + [(val' / Pow2(valb + 6)) % 256]);
      } else {
        DecodeAccLength(v[1..], val', valb + 6, out);
      }
    }
  }

  /** Anything after a stop character is never read. */
  lemma {:induction false} SextetsStop(t: string, rest: string)
    requires rest != [] ==> rest[0] == '=' || ValueOf(rest[0]).None?
    ensures Sextets(t + rest) == Sextets(t)
  {
    if t == [] {
      assert t + rest == rest;
    } else {
      assert (t + rest)[0] == t[0];
      assert (t + rest)[1..] == t[1..] + rest;
      SextetsStop(t[1..], rest);
    }
  }

  /** The padding the decoder adds is never read. */
  lemma DecodeUnpadded(s: string)
    ensures Decode(s) == DecodeAcc(Sextets(ToStd(s)), 0, -8, [])
  {
    var t := ToStd(s);
    var pad := Equals((4 - |t| % 4) % 4);
    assert Padded(t) == t + pad;
    SextetsStop(t, pad);
  }

  /** The output has six bits for each character read, in whole bytes. */
  lemma DecodeLength(input: string)
    ensures |Decode(input)| == 6 * |Sextets(ToStd(input))| / 8
    ensures |Decode(input)| <= 3 * |input| / 4
  {
    DecodeUnpadded(input);
    DecodeAccLength(Sextets(ToStd(input)), 0, -8, []);
  }

  lemma ToStdAppend(a: string, b: string)
    ensures ToStd(a + b) == ToStd(a) + ToStd(b)
  {
    assert ToStd(a + b) == ToStd(a) + ToStd(b);
  }

  /** `=` padding never changes the output: the loop stops at the first
      `=`. */
  lemma PaddingIsIgnored(s: string, pad: nat)
    ensures Decode(s + Equals(pad)) == Decode(s)
  {
    DecodeUnpadded(s + Equals(pad));
    DecodeUnpadded(s);
    ToStdAppend(s, Equals(pad));
    assert ToStd(Equals(pad)) == Equals(pad);
    SextetsStop(ToStd(s), Equals(pad));
  }

  /** Decoding stops at the first `=` or character outside both alphabets:
      whatever follows it is ignored. */
  lemma StopsAtForeignCharacter(s: string, c: char, rest: string)
    requires c == '=' || (ValueOf(c) == None && c != '-' && c != '_')
    ensures Decode(s + [c] + rest) == Decode(s)
  {
    ToStdAroundStop(s, c, rest);
    SextetsStop(ToStd(s), [c] + ToStd(rest));
    DecodeUnpadded(s + [c] + rest);
    DecodeUnpadded(s);
  }

  /** A character that is neither URL-safe nor standard-only keeps its
      place in the standard spelling. */
  lemma ToStdAroundStop(s: string, c: char, rest: string)
    requires c != '-' && c != '_'
    ensures ToStd(s + [c] + rest) == ToStd(s) + ([c] + ToStd(rest))
  {
    assert s + [c] + rest == s + ([c] + rest);
    ToStdAppend(s, [c] + rest);
    assert ToStd([c] + rest) == [c] + ToStd(rest);
  }

  /** The URL-safe and the standard spelling of the same text decode to
      the same bytes. */
  lemma SpellingsDecodeAlike(s: string)
    ensures Decode(ToStd(s)) == Decode(s)
    ensures Decode(ToUrl(s)) == Decode(s)
  {
    ToStdIdempotent(s);
    ToStdOfToUrl(s);
  }

  lemma ToStdIdempotent(s: string)
    ensures ToStd(ToStd(s)) == ToStd(s)
  {
    var a, b := ToStd(ToStd(s)), ToStd(s);
    forall k | 0 <= k < |s|
      ensures a[k] == b[k]
    {
      assert StdOf(StdOf(s[k])) == StdOf(s[k]);
    }
  }

  lemma ToStdOfToUrl(s: string)
    ensures ToStd(ToUrl(s)) == ToStd(s)
  {
    var a, b := ToStd(ToUrl(s)), ToStd(s);
    forall k | 0 <= k < |s|
      ensures a[k] == b[k]
    {
      assert StdOf(UrlOf(s[k])) == StdOf(s[k]);
    }
  }

  /** The unpadded encoding of section 5 of RFC 4648: each three bytes
      become four values, and a final one or two bytes become two or
      three. */
  function EncodeSextets(b: seq<byte>): (v: seq<nat>)
    ensures forall k :: 0 <= k < |v| ==> v[k] < 64
    decreases |b|
  {
    if |b| == 0 then []
    else if |b| == 1 then [b[0] / 4, (b[0] % 4) * 16]
    else if |b| == 2 then [b[0] / 4, (b[0] % 4) * 16 + b[1] / 16, (b[1] % 16) * 4]
    else [b[0] / 4, (b[0] % 4) * 16 + b[1] / 16, (b[1] % 16) * 4 + b[2] / 64, b[2] % 64] + EncodeSextets(b[3..])
  }

  /** The characters of values `v` in the standard alphabet. */
  function StdText(v: seq<nat>): (t: string)
    requires forall k :: 0 <= k < |v| ==> v[k] < 64
    ensures |t| == |v| && forall k :: 0 <= k < |v| ==> t[k] == StdChar(v[k])
  {
    if v == [] then [] else [StdChar(v[0])] + StdText(v[1..])
  }

  /** The base64url text of `b`, without padding. */
  function Encode(b: seq<byte>): (t: string)
    ensures |t| == |EncodeSextets(b)|
  {
    ToUrl(StdText(EncodeSextets(b)))
  }

  /** Standard characters of valid values are read back as those values. */
  lemma {:induction false} SextetsOfStd(v: seq<nat>)
    requires forall k :: 0 <= k < |v| ==> v[k] < 64
    ensures Sextets(StdText(v)) == v
  {
    if v != [] {
      var t := StdText(v);
      ValueOfStdChar(v[0]);
      assert t[0] == StdChar(v[0]) != '=';
      assert t[1..] == StdText(v[1..]);
      SextetsOfStd(v[1..]);
    }
  }

  /** Shifting `q` left past `r` and back gives `q`, and the low byte of
      `q` shifted left by eight bits and `r` added is `r`. */
  lemma ShiftFacts(q: nat, r: nat)
    ensures r < 16 ==> (q * 16 + r) / 16 == q
    ensures r < 4 ==> (q * 4 + r) / 4 == q
    ensures r < 256 ==> (q * 256 + r) % 256 == r
  {
  }

  /** The first two values of a group emit its first byte and leave four
      bits of the second pending. */
  lemma DecodeFirstByte(x: byte, y: byte, rest: seq<nat>, val: nat, out: seq<byte>)
    ensures DecodeAcc([x / 4, (x % 4) * 16 + y / 16] + rest, val, -8, out)
            == DecodeAcc(rest, (val * 256 + x) * 16 + y / 16, -4, out + [x])
  {
    var v1 := val * 64 + x / 4;
    var v2 := v1 * 64 + ((x % 4) * 16 + y / 16);
    assert v2 == (val * 256 + x) * 16 + y / 16;
    assert Pow2(4) == 16;
    ShiftFacts(val * 256 + x, y / 16);
    ShiftFacts(val, x);
    assert (v2 / Pow2(4)) % 256 == x;
    assert [x / 4, (x % 4) * 16 + y / 16] + rest == [x / 4] + ([(x % 4) * 16 + y / 16] + rest);
    DecodeAccStep(x / 4, [(x % 4) * 16 + y / 16] + rest, val, -8, out);
    DecodeAccStep((x % 4) * 16 + y / 16, rest, v1, -2, out);
  }

  /** The third value of a group emits its second byte. */
  lemma DecodeSecondByte(a: nat, y: byte, z: byte, rest: seq<nat>, out: seq<byte>)
    ensures DecodeAcc([(y % 16) * 4 + z / 64] + rest, a * 16 + y / 16, -4, out)
            == DecodeAcc(rest, (a * 256 + y) * 4 + z / 64, -6, out + [y])
  {
    var v3 := (a * 16 + y / 16) * 64 + ((y % 16) * 4 + z / 64);
    assert v3 == (a * 256 + y) * 4 + z / 64;
    assert Pow2(2) == 4;
    ShiftFacts(a * 256 + y, z / 64);
    ShiftFacts(a, y);
    assert (v3 / Pow2(2)) % 256 == y;
    DecodeAccStep((y % 16) * 4 + z / 64, rest, a * 16 + y / 16, -4, out);
  }

  /** The fourth value of a group emits its third byte and empties the
      pending bits. */
  lemma DecodeThirdByte(a: nat, z: byte, rest: seq<nat>, out: seq<byte>)
    ensures DecodeAcc([z % 64] + rest, a * 4 + z / 64, -6, out)
            == DecodeAcc(rest, a * 256 + z, -8, out + [z])
  {
    var v4 := (a * 4 + z / 64) * 64 + z % 64;
    assert v4 == a * 256 + z;
    assert Pow2(0) == 1;
    ShiftFacts(a, z);
    assert (v4 / Pow2(0)) % 256 == z;
    DecodeAccStep(z % 64, rest, a * 4 + z / 64, -6, out);
  }

  /** One group of four values decodes to its three bytes, whatever bits
      the accumulator already holds. */
  lemma DecodeGroup(x: byte, y: byte, z: byte, rest: seq<nat>, val: nat, out: seq<byte>)
    ensures DecodeAcc([x / 4, (x % 4) * 16 + y / 16, (y % 16) * 4 + z / 64, z % 64] + rest, val, -8, out)
            == DecodeAcc(rest, ((val * 256 + x) * 256 + y) * 256 + z, -8, out + [x, y, z])
  {
    var a := val * 256 + x;
    var tail := [(y % 16) * 4 + z / 64, z % 64] + rest;
    assert [x / 4, (x % 4) * 16 + y / 16, (y % 16) * 4 + z / 64, z % 64] + rest
        == [x / 4, (x % 4) * 16 + y / 16] + tail;
    DecodeFirstByte(x, y, tail, val, out);
    assert tail == [(y % 16) * 4 + z / 64] + ([z % 64] + rest);
    DecodeSecondByte(a, y, z, [z % 64] + rest, out + [x]);
    DecodeThirdByte(a * 256 + y, z, rest, out + [x] + [y]);
    assert out + [x] + [y] + [z] == out + [x, y, z];
  }

  /** A final single byte, encoded as two values, is decoded back. */
  lemma DecodeLastByte(x: byte, val: nat, out: seq<byte>)
    ensures DecodeAcc(EncodeSextets([x]), val, -8, out) == out + [x]
  {
    assert EncodeSextets([x]) == [x / 4, (x % 4) * 16 + 0 / 16] + [];
    DecodeFirstByte(x, 0, [], val, out);
  }

  /** A final two bytes, encoded as three values, are decoded back. */
  lemma DecodeLastTwoBytes(x: byte, y: byte, val: nat, out: seq<byte>)
    ensures DecodeAcc(EncodeSextets([x, y]), val, -8, out) == out + [x, y]
  {
    assert EncodeSextets([x, y]) == [x / 4, (x % 4) * 16 + y / 16] + [(y % 16) * 4 + 0 / 64];
    DecodeFirstByte(x, y, [(y % 16) * 4 + 0 / 64], val, out);
    assert [(y % 16) * 4 + 0 / 64] == [(y % 16) * 4 + 0 / 64] + [];
    DecodeSecondByte(val * 256 + x, y, 0, [], out + [x]);
    assert out + [x] + [y] == out + [x, y];
  }

  /** Decoding the encoding of any bytes appends them to the output. */
  lemma {:induction false} DecodeAccOfEncoding(b: seq<byte>, val: nat, out: seq<byte>)
    ensures DecodeAcc(EncodeSextets(b), val, -8, out) == out + b
    decreases |b|
  {
    if |b| == 0 {
      assert out + b == out;
    } else if |b| == 1 {
      assert b == [b[0]];
      DecodeLastByte(b[0], val, out);
    } else if |b| == 2 {
      assert b == [b[0], b[1]];
      DecodeLastTwoBytes(b[0], b[1], val, out);
    } else {
      var x, y, z := b[0], b[1], b[2];
      var tail := EncodeSextets(b[3..]);
      assert EncodeSextets(b) == [x / 4, (x % 4) * 16 + y / 16, (y % 16) * 4 + z / 64, z % 64] + tail;
      DecodeGroup(x, y, z, tail, val, out);
      DecodeAccOfEncoding(b[3..], ((val * 256 + x) * 256 + y) * 256 + z, out + [x, y, z]);
      assert out + [x, y, z] + b[3..] == out + b;
    }
  }

  lemma ToStdOfUrlText(v: seq<nat>)
    requires forall k :: 0 <= k < |v| ==> v[k] < 64
    ensures ToStd(ToUrl(StdText(v))) == StdText(v)
  {
    assert forall k :: 0 <= k < |v| ==> StdOf(UrlOf(StdChar(v[k]))) == StdChar(v[k]);
  }

  /** Decoding the unpadded base64url text of any byte string returns that
      byte string. */
  lemma DecodeEncode(b: seq<byte>)
    ensures Decode(Encode(b)) == b
  {
    var v := EncodeSextets(b);
    DecodeUnpadded(Encode(b));
    ToStdOfUrlText(v);
    SextetsOfStd(v);
    DecodeAccOfEncoding(b, 0, []);
    assert [] + b == b;
  }

  /* ---------------- The token's payload ---------------- */

  /** `std::string::npos`, the largest `size_t`. */
  const SizeMax: nat := 0x1_0000_0000_0000_0000
  const NPos: nat := SizeMax - 1

  /** `s.find(c, from)`: the first index at or after `from` holding `c`,
      or `npos` when there is none. */
  function CppFind(s: string, c: char, from: nat): (r: nat)
    ensures r == NPos || (from <= r < |s| && s[r] == c)
    ensures r != NPos ==> forall j :: from <= j < r ==> s[j] != c
    ensures |s| < NPos ==> (r == NPos <==> forall j :: from <= j < |s| ==> s[j] != c)
  {
    match Find(s, c, from)
    case None => NPos
    case Some(i) => i
  }

  /** `first` and `second` of `ParseJwtExpiry`, with `size_t` wrap-around:
      when the token has no `.`, `npos + 1` is 0. */
  function JwtBounds(token: string): (nat, nat)
  {
    var first := (CppFind(token, '.', 0) + 1) % SizeMax;
    (first, CppFind(token, '.', first))
  }

  /** The segment `ParseJwtExpiry` decodes, or None when it returns 0
      before decoding. */
  function JwtPayload(token: string): Option<string>
  {
    var (first, second) := JwtBounds(token);
    if first == NPos || second == NPos then None else Some(token[first..second])
  }

  /** `ParseJwtExpiry`: 0 unless the token has a payload segment whose
      decoding parses; otherwise the `exp` claim as `expOf` reads it. */
  method ParseJwtExpiry<J>(token: string, parse: seq<byte> -> Option<J>, expOf: J -> int) returns (exp: int)
    ensures JwtPayload(token).None? ==> exp == 0
    ensures JwtPayload(token).Some? ==> exp == match parse(Decode(JwtPayload(token).value))
                                                case None => 0
                                                case Some(j) => expOf(j)
  {
    var first := (CppFind(token, '.', 0) + 1) % SizeMax;
    var second := CppFind(token, '.', first);
    if first == NPos || second == NPos {
      return 0;
    }
    var payload := token[first..second];
    var decoded := Base64UrlDecode(payload);
    var j := parse(decoded);
    if j.None? {
      return 0;
    }
    return expOf(j.value);
  }

  /** A token without a `.` wraps `first` round to 0, and the search for
      `second` is what rejects it. */
  lemma NoDotWrapsToZero(token: string)
    requires '.' !in token
    ensures JwtBounds(token) == (0, NPos)
    ensures JwtPayload(token) == None
  {
  }

  /** With at most one `.`, there is no payload and the result is 0. */
  lemma FewerThanTwoDots(token: string)
    requires |token| < NPos
    requires forall i, j :: 0 <= i < j < |token| && token[i] == '.' ==> token[j] != '.'
    ensures JwtPayload(token) == None
  {
    match Find(token, '.', 0)
    case None =>
    case Some(p) =>
      var first := p + 1;
      assert (CppFind(token, '.', 0) + 1) % SizeMax == first;
      assert Find(token, '.', first).None?;
  }

  /** The decoded segment is exactly the text between the first two
      dots. */
  lemma PayloadBetweenFirstTwoDots(head: string, payload: string, rest: string)
    requires '.' !in head && '.' !in payload
    requires |head + "." + payload + "." + rest| < NPos
    ensures JwtPayload(head + "." + payload + "." + rest) == Some(payload)
  {
    var token := head + "." + payload + "." + rest;
    var p := |head|;
    assert token[p] == '.';
    assert forall k :: 0 <= k < p ==> token[k] == head[k];
    assert Find(token, '.', 0) == Some(p);
    var q := p + 1 + |payload|;
    assert token[q] == '.';
    assert forall k :: p + 1 <= k < q ==> token[k] == payload[k - p - 1];
    assert Find(token, '.', p + 1) == Some(q);
    assert token[p + 1..q] == payload;
  }

  /** Conversely, whenever there is a payload it is the text between the
      first two dots. */
  lemma PayloadShape(token: string)
    requires |token| < NPos && JwtPayload(token).Some?
    ensures exists head, rest :: token == head + "." + JwtPayload(token).value + "." + rest &&
              '.' !in head && '.' !in JwtPayload(token).value
  {
    var (first, second) := JwtBounds(token);
    var p := Find(token, '.', 0);
    assert p.None? ==> first == 0 && second == NPos;
    var q := Find(token, '.', first);
    assert q.Some? && first == p.value + 1 && second == q.value;
    var head, payload, rest := token[..p.value], token[first..second], token[second + 1..];
    assert token == head + "." + payload + "." + rest;
  }
}
