/** lib/src/base64.c: the encoding of section 4 of RFC 4648 and a decoder that skips newlines. */
module Base64 {
  import opened Octets
  import opened Powers

  type Sextet = x: int | 0 <= x < 64

  datatype Decoding = Ok(bytes: seq<Byte>) | InvalidData | BufTooSmall

  /** What the decoder's table makes of a character */
  datatype Class = Value(v: Sextet) | Whitespace | Equals | Invalid

  function Symbol(v: Sextet): char {
    if v < 26 then 'A' + v as char
    else if v < 52 then 'a' + (v - 26) as char
    else if v < 62 then '0' + (v - 52) as char
    else if v == 62 then '+' else '/'
  }

  function Classify(c: char): Class {
    if 'A' <= c <= 'Z' then Value(c as int - 'A' as int)
    else if 'a' <= c <= 'z' then Value(c as int - 'a' as int + 26)
    else if '0' <= c <= '9' then Value(c as int - '0' as int + 52)
    else if c == '+' then Value(62)
    else if c == '/' then Value(63)
    else if c == '\n' then Whitespace
    else if c == '=' then Equals
    else Invalid
  }

  /** The decoder's table inverts the alphabet, and maps nothing else to a value. */
  lemma ClassifyInvertsSymbol(c: char, v: Sextet)
    ensures Classify(c) == Value(v) <==> c == Symbol(v)
  {}

  /** The alphabet is that of table 1 of RFC 4648: A to Z, a to z, 0 to 9, plus and slash, in this order. */
  lemma SymbolIs(v: Sextet)
    ensures v < 26 ==> Symbol(v) as int == 0x41 + v
    ensures 26 <= v < 52 ==> Symbol(v) as int == 0x61 + (v - 26)
    ensures 52 <= v < 62 ==> Symbol(v) as int == 0x30 + (v - 52)
    ensures v == 62 ==> Symbol(v) as int == 0x2b
    ensures v == 63 ==> Symbol(v) as int == 0x2f
  {}

  /** The four sextets of three bytes */
  function Group(a: Byte, b: Byte, c: Byte): (s: seq<Sextet>)
    ensures |s| == 4
  {
    var a, b, c: int := a, b, c;
    [a / 4, a % 4 * 16 + b / 16, b % 16 * 4 + c / 64, c % 64]
  }

  /** The three bytes of four sextets */
  function Ungroup(a: Sextet, b: Sextet, c: Sextet, d: Sextet): (bytes: seq<Byte>)
    ensures |bytes| == 3
  {
    var a, b, c, d: int := a, b, c, d;
    [a * 4 + b / 16, b % 16 * 16 + c / 4, c % 4 * 64 + d]
  }

  lemma UngroupGroup(a: Byte, b: Byte, c: Byte)
    ensures var s := Group(a, b, c); Ungroup(s[0], s[1], s[2], s[3]) == [a, b, c]
  {}

  /** The sextets of a byte string, a last incomplete one filled with zero bits. */
  function Packed(bytes: seq<Byte>): (s: seq<Sextet>)
    ensures |s| == (8 * |bytes| + 5) / 6
  {
    if bytes == [] then []
    else if |bytes| == 1 then Group(bytes[0], 0, 0)[..2]
    else if |bytes| == 2 then Group(bytes[0], bytes[1], 0)[..3]
    else Group(bytes[0], bytes[1], bytes[2]) + Packed(bytes[3..])
  }

  /** The whole bytes in a list of sextets. */
  function Unpacked(s: seq<Sextet>): (bytes: seq<Byte>)
    ensures |bytes| == 6 * |s| / 8
  {
    if |s| < 2 then []
    else if |s| == 2 then Ungroup(s[0], s[1], 0, 0)[..1]
    else if |s| == 3 then Ungroup(s[0], s[1], s[2], 0)[..2]
    else Ungroup(s[0], s[1], s[2], s[3]) + Unpacked(s[4..])
  }

  function Symbols(s: seq<Sextet>): (text: string)
    ensures |text| == |s| && forall i | 0 <= i < |s| :: text[i] == Symbol(s[i])
  {
    seq(|s|, i requires 0 <= i < |s| => Symbol(s[i]))
  }

  function Padding(n: nat): string {
    if n % 3 == 0 then "" else if n % 3 == 1 then "==" else "="
  }

  lemma TextSize(n: nat)
    ensures (8 * n + 5) / 6 + |Padding(n)| == 4 * ((n + 2) / 3)
  {
    var k := n / 3;
    if n == 3 * k {
      assert (n + 2) / 3 == k && (8 * n + 5) / 6 == 4 * k;
    } else if n == 3 * k + 1 {
      assert (n + 2) / 3 == k + 1 && (8 * n + 5) / 6 == 4 * k + 2;
    } else {
      assert n == 3 * k + 2;
      assert (n + 2) / 3 == k + 1 && (8 * n + 5) / 6 == 4 * k + 3;
    }
  }

  function Encoded(bytes: seq<Byte>): (text: string)
    ensures |text| == 4 * ((|bytes| + 2) / 3)
  {
    TextSize(|bytes|);
    Symbols(Packed(bytes)) + Padding(|bytes|)
  }

  /** The sextets in front of the first '=' or character that is neither symbol nor newline, and whether it was such a
      character that ended them. */
  function Scanned(text: string): (r: (seq<Sextet>, bool)) {
    if text == "" then ([], false)
    else
      match Classify(text[0])
      case Value(v) => var rest := Scanned(text[1..]); ([v] + rest.0, rest.1)
      case Whitespace => Scanned(text[1..])
      case Equals => ([], false)
      case Invalid => ([], true)
  }

  /** chiaki_base64_decode: a buffer too small for the full groups in front of an invalid character is reported
      first. */
  function Decoded(text: string, capacity: nat): Decoding {
    var (s, invalid) := Scanned(text);
    if invalid then (if 3 * (|s| / 4) > capacity then BufTooSmall else InvalidData)
    else if |Unpacked(s)| > capacity then BufTooSmall
    else Ok(Unpacked(s))
  }

  /** The text without its newlines */
  function WithoutNewlines(text: string): string {
    if text == "" then "" else (if text[0] == '\n' then "" else [text[0]]) + WithoutNewlines(text[1..])
  }

  // ---------------------------------------------------------------- round trip

  lemma {:induction false} UnpackPacked(bytes: seq<Byte>)
    ensures Unpacked(Packed(bytes)) == bytes
  {
    hide Group, Ungroup;
    if |bytes| > 2 {
      UngroupGroup(bytes[0], bytes[1], bytes[2]);
      UnpackPacked(bytes[3..]);
      assert Packed(bytes)[4..] == Packed(bytes[3..]);
      assert bytes == bytes[..3] + bytes[3..];
    } else if |bytes| > 0 {
      UngroupLast(bytes);
    }
  }

  lemma UngroupLast(bytes: seq<Byte>)
    requires 1 <= |bytes| <= 2
    ensures Unpacked(Packed(bytes)) == bytes
  {
    hide Group, Ungroup;
    var b := if |bytes| == 2 then bytes[1] else 0;
    GroupZeros(bytes[0], b);
    UngroupGroup(bytes[0], b, 0);
  }

  lemma GroupZeros(a: Byte, b: Byte)
    ensures Group(a, b, 0)[3] == 0 && (b == 0 ==> Group(a, b, 0)[2] == 0)
  {}

  lemma {:induction false} ScanSymbols(s: seq<Sextet>, rest: string)
    requires rest == "" || rest[0] == '='
    ensures Scanned(Symbols(s) + rest) == (s, false)
  {
    var text := Symbols(s) + rest;
    if s == [] {
      assert text == rest;
    } else {
      assert text[1..] == Symbols(s[1..]) + rest;
      assert text[0] == Symbol(s[0]);
      ScanSymbols(s[1..], rest);
      assert s == [s[0]] + s[1..];
    }
  }

  /** Newlines anywhere in a text do not matter to the decoder. */
  lemma {:induction false} ScanWithoutNewlines(text: string)
    ensures Scanned(text) == Scanned(WithoutNewlines(text))
  {
    if text != "" {
      ScanWithoutNewlines(text[1..]);
      if text[0] == '\n' {
        assert WithoutNewlines(text) == WithoutNewlines(text[1..]);
      } else {
        assert WithoutNewlines(text)[0] == text[0] && WithoutNewlines(text)[1..] == WithoutNewlines(text[1..]);
      }
    }
  }

  /** Decoding the encoding of a byte string, with newlines inserted anywhere, succeeds exactly if the bytes fit, and
      gives back exactly the bytes. */
  lemma DecodeEncoded(bytes: seq<Byte>, text: string, capacity: nat)
    requires WithoutNewlines(text) == Encoded(bytes)
    ensures Decoded(text, capacity) == if capacity >= |bytes| then Ok(bytes) else BufTooSmall
  {
    ScanWithoutNewlines(text);
    ScanSymbols(Packed(bytes), Padding(|bytes|));
    UnpackPacked(bytes);
  }

  lemma {:induction false} ScanUntil(s: seq<Sextet>, c: char, rest: string)
    requires (forall v :: c != Symbol(v)) && c != '\n'
    ensures Scanned(Symbols(s) + ([c] + rest)) == (s, c != '=')
  {
    var text := Symbols(s) + ([c] + rest);
    if s == [] {
      assert text == [c] + rest;
      NoSymbol(c);
    } else {
      assert text[1..] == Symbols(s[1..]) + ([c] + rest);
      assert text[0] == Symbol(s[0]);
      ScanUntil(s[1..], c, rest);
      assert s == [s[0]] + s[1..];
    }
  }

  lemma NoSymbol(c: char)
    requires (forall v :: c != Symbol(v)) && c != '\n'
    ensures Classify(c) == if c == '=' then Equals else Invalid
  {
    forall v: Sextet ensures Classify(c) != Value(v) {
      ClassifyInvertsSymbol(c, v);
    }
  }

  /** A text that goes on behind its symbols, newlines anywhere: whatever follows a '=' does not matter, and any other
      character is an error, which a buffer too small for the full groups in front of it comes before. */
  lemma DecodeUntil(s: seq<Sextet>, c: char, rest: string, text: string, capacity: nat)
    requires (forall v :: c != Symbol(v)) && c != '\n' && WithoutNewlines(text) == Symbols(s) + ([c] + rest)
    ensures Decoded(text, capacity) ==
      if c != '=' then (if |s| / 4 * 3 > capacity then BufTooSmall else InvalidData)
      else if 6 * |s| / 8 > capacity then BufTooSmall
      else Ok(Unpacked(s))
  {
    hide Unpacked;
    ScanWithoutNewlines(text);
    ScanUntil(s, c, rest);
  }

  /** Different byte strings never share a text. */
  lemma EncodedInjective(a: seq<Byte>, b: seq<Byte>)
    requires Encoded(a) == Encoded(b)
    ensures a == b
  {
    ScanSymbols(Packed(a), Padding(|a|));
    ScanSymbols(Packed(b), Padding(|b|));
    UnpackPacked(a);
    UnpackPacked(b);
  }

  // ---------------------------------------------------------------- the encoder

  lemma PackedStep(bytes: seq<Byte>, x: nat, p: nat)
    requires x < |bytes| && p <= |Packed(bytes)| && Packed(bytes)[p..] == Packed(bytes[x..])
    ensures x + 3 <= |bytes| ==> p + 4 <= |Packed(bytes)| && Packed(bytes)[p + 4..] == Packed(bytes[x + 3..])
    ensures x + 3 > |bytes| ==> p + (|bytes| - x) + 1 == |Packed(bytes)|
    ensures forall k | 0 <= k < |Packed(bytes)| - p :: Packed(bytes)[p + k] == Packed(bytes[x..])[k]
  {
    var all, rest := Packed(bytes), bytes[x..];
    if |rest| >= 3 {
      assert rest[3..] == bytes[x + 3..];
      assert all[p..][4..] == all[p + 4..];
    }
    assert forall k | 0 <= k < |all| - p :: all[p + k] == all[p..][k];
  }

  /** The first i characters of the text are written, and nothing behind them. */
  ghost predicate Written(out: array<char>, i: nat, text: string, was: seq<char>)
    reads out
  {
    && i <= out.Length == |was| && i <= |text|
    && out[..i] == text[..i]
    && out[i..] == was[i..]
  }

  /** Appends the next character of a text, if there is room for it. */
  method Append(out: array<char>, i: nat, c: char, ghost text: string, ghost was: seq<char>) returns (ok: bool)
    requires i < |text| && text[i] == c && Written(out, i, text, was)
    modifies out
    ensures ok <==> i < out.Length
    ensures Written(out, if ok then i + 1 else i, text, was)
  {
    if i >= out.Length {
      return false;
    }
    out[i] := c;
    assert out[i + 1..] == was[i..][1..];
    ok := true;
  }

  /** Before the bytes at x come the first i sextets. */
  ghost predicate AtGroup(bytes: seq<Byte>, x: nat, i: nat) {
    && i <= |Packed(bytes)|
    && (x <= |bytes| ==> Packed(bytes)[i..] == Packed(bytes[x..]))
    && (x >= |bytes| ==> i == |Packed(bytes)|)
  }

  lemma FirstGroup(bytes: seq<Byte>)
    ensures AtGroup(bytes, 0, 0)
  {
    assert bytes[0..] == bytes;
  }

  lemma LastGroup(bytes: seq<Byte>, x: nat, i: nat)
    requires AtGroup(bytes, x, i) && x >= |bytes|
    ensures i == |Packed(bytes)|
  {}

  /** Appends the symbols of the bytes at x, the next three or the rest, if there is room for them. */
  method EncodeGroup(bytes: seq<Byte>, x: nat, out: array<char>, i: nat, ghost text: string, ghost was: seq<char>)
      returns (ok: bool, next: nat)
    requires x < |bytes| && AtGroup(bytes, x, i)
    requires |text| > |Packed(bytes)| && text[..|Packed(bytes)|] == Symbols(Packed(bytes)) && Written(out, i, text, was)
    modifies out
    ensures Written(out, next, text, was)
    ensures !ok ==> next == out.Length < |Packed(bytes)|
    ensures ok ==> AtGroup(bytes, x + 3, next)
  {
    hide Packed, Group, Symbol, Written;
    PackedStep(bytes, x, i);
    var n := bytes[x] as int * 0x1_0000;
    if x + 1 < |bytes| {
      n := n + bytes[x + 1] as int * 0x100;
    }
    if x + 2 < |bytes| {
      n := n + bytes[x + 2];
    }
    var n0, n1, n2, n3 := n / 0x4_0000 % 64, n / 0x1000 % 64, n / 0x40 % 64, n % 64;
    GroupSextets(bytes[x..], n);
    assert forall k | i <= k < |Packed(bytes)| ::
        text[k] == text[..|Packed(bytes)|][k] == Symbol(Packed(bytes[x..])[k - i]);
    next := i;
    ok := Append(out, next, Symbol(n0), text, was);
    if !ok { return; }
    next := next + 1;
    ok := Append(out, next, Symbol(n1), text, was);
    if !ok { return; }
    next := next + 1;
    if x + 1 < |bytes| {
      ok := Append(out, next, Symbol(n2), text, was);
      if !ok { return; }
      next := next + 1;
    }
    if x + 2 < |bytes| {
      ok := Append(out, next, Symbol(n3), text, was);
      if !ok { return; }
      next := next + 1;
    }
  }

  /** chiaki_base64_encode: whether it succeeds depends on the sizes alone, and then the text and its terminator are all
      that changed. */
  method Encode(bytes: seq<Byte>, out: array<char>) returns (ok: bool)
    modifies out
    ensures ok <==> out.Length >= 4 * ((|bytes| + 2) / 3) + 1
    ensures ok ==> out[..] == Encoded(bytes) + ['\0'] + old(out[..])[|Encoded(bytes)| + 1..]
    ensures !ok ==> out[..] == Encoded(bytes)[..out.Length]
  {
    hide Packed, Written, Encoded, Symbols, Padding, AtGroup;
    ghost var text := Encoded(bytes) + ['\0'];
    ghost var was := out[..];
    TextParts(bytes);
    WrittenNothing(out, text);
    FirstGroup(bytes);
    var resultIndex: nat := 0;
    var x := 0;
    var padCount := |bytes| % 3;
    while x < |bytes|
      invariant 0 <= x && AtGroup(bytes, x, resultIndex)
      invariant Written(out, resultIndex, text, was)
    {
      ok, resultIndex := EncodeGroup(bytes, x, out, resultIndex, text, was);
      if !ok {
        WrittenAll(out, resultIndex, text, was);
        return;
      }
      x := x + 3;
    }
    LastGroup(bytes, x, resultIndex);
    ok, resultIndex := EncodePadding(out, resultIndex, padCount, text, was);
    if !ok {
      WrittenAll(out, resultIndex, text, was);
      return;
    }
    ok := Append(out, resultIndex, '\0', text, was);
    WrittenAll(out, if ok then resultIndex + 1 else resultIndex, text, was);
  }

  /** The padding of an incomplete last group */
  method EncodePadding(out: array<char>, i: nat, padCount: nat, ghost text: string, ghost was: seq<char>)
      returns (ok: bool, next: nat)
    requires padCount < 3 && Written(out, i, text, was)
    requires i + |Padding(padCount)| < |text| && text[i..i + |Padding(padCount)|] == Padding(padCount)
    modifies out
    ensures Written(out, next, text, was)
    ensures if ok then next == i + |Padding(padCount)| else next == out.Length < i + |Padding(padCount)|
  {
    hide Written;
    var padding := Padding(padCount);
    assert forall k | i <= k < i + |padding| :: text[k] == text[i..i + |padding|][k - i] == '=';
    ok, next := true, i;
    if padCount > 0 {
      var n := padCount;
      while n < 3
        invariant padCount <= n <= 3 && next == i + (n - padCount)
        invariant Written(out, next, text, was)
      {
        ok := Append(out, next, '=', text, was);
        if !ok {
          return;
        }
        next := next + 1;
        n := n + 1;
      }
    }
  }

  lemma TextParts(bytes: seq<Byte>)
    ensures var text, n, m := Encoded(bytes) + ['\0'], |Packed(bytes)|, |Padding(|bytes| % 3)|;
      && |text| == n + m + 1 && text[n + m] == '\0'
      && text[..n] == Symbols(Packed(bytes)) && text[n..n + m] == Padding(|bytes| % 3)
      && |Encoded(bytes)| == n + m && text[..n + m] == Encoded(bytes)
  {
    assert Padding(|bytes| % 3) == Padding(|bytes|);
    hide Packed, Symbols, Padding;
  }

  lemma WrittenNothing(out: array<char>, text: string)
    ensures Written(out, 0, text, out[..])
  {}

  lemma WrittenAll(out: array<char>, i: nat, text: string, was: seq<char>)
    requires Written(out, i, text, was)
    ensures i <= out.Length == |was| && i <= |text| && out[..] == text[..i] + was[i..]
  {
    assert out[..] == out[..i] + out[i..];
  }

  /** The sextets of three bytes are those of their 24-bit number. */
  lemma GroupOf(a: Byte, b: Byte, c: Byte)
    ensures var n := a as int * 0x1_0000 + b as int * 0x100 + c;
      Group(a, b, c) == [n / 0x4_0000 % 64, n / 0x1000 % 64, n / 0x40 % 64, n % 64]
  {
    hide Group;
    var n := a as int * 0x1_0000 + b as int * 0x100 + c;
    var ah: nat, al: nat, bh: nat, bl: nat, ch: nat, cl: nat := a / 4, a % 4, b / 16, b % 16, c / 64, c % 64;
    GroupParts(a, b, c);
    GroupDigits(ah, al, bh, bl, ch, cl);
    assert n == (4 * ah + al) * 0x1_0000 + (16 * bh + bl) * 0x100 + 64 * ch + cl;
  }

  lemma GroupParts(a: Byte, b: Byte, c: Byte)
    ensures var a', b', c' := a as int, b as int, c as int;
      Group(a, b, c) == [a' / 4, a' % 4 * 16 + b' / 16, b' % 16 * 4 + c' / 64, c' % 64]
  {}

  lemma GroupDigits(ah: nat, al: nat, bh: nat, bl: nat, ch: nat, cl: nat)
    requires ah < 64 && al < 4 && bh < 16 && bl < 16 && ch < 4 && cl < 64
    ensures var n := (4 * ah + al) * 0x1_0000 + (16 * bh + bl) * 0x100 + 64 * ch + cl;
      && n / 0x4_0000 % 64 == ah && n / 0x1000 % 64 == 16 * al + bh && n / 0x40 % 64 == 4 * bl + ch && n % 64 == cl
  {
    var n := (4 * ah + al) * 0x1_0000 + (16 * bh + bl) * 0x100 + 64 * ch + cl;
    DivisionIs(n, 0x4_0000, ah, al * 0x1_0000 + (16 * bh + bl) * 0x100 + 64 * ch + cl);
    DivisionIs(n, 0x1000, 64 * ah + 16 * al + bh, bl * 0x100 + 64 * ch + cl);
    DivisionIs(n, 0x40, 0x1000 * ah + 0x400 * al + 64 * bh + 4 * bl + ch, cl);
    DivisionIs(64 * ah + 16 * al + bh, 64, ah, 16 * al + bh);
    DivisionIs(0x1000 * ah + 0x400 * al + 64 * bh + 4 * bl + ch, 64, 64 * ah + 16 * al + bh, 4 * bl + ch);
  }

  /** The first symbols of a text come from the 24-bit number of its first three bytes. */
  lemma GroupSextets(rest: seq<Byte>, n: nat)
    requires |rest| > 0
    requires n == rest[0] as int * 0x1_0000 + (if |rest| > 1 then rest[1] as int * 0x100 else 0)
                  + (if |rest| > 2 then rest[2] else 0)
    ensures Packed(rest)[0] == n / 0x4_0000 % 64 && Packed(rest)[1] == n / 0x1000 % 64
    ensures |rest| > 1 ==> Packed(rest)[2] == n / 0x40 % 64
    ensures |rest| > 2 ==> Packed(rest)[3] == n % 64
  {
    hide Group;
    GroupOf(rest[0], if |rest| > 1 then rest[1] else 0, if |rest| > 2 then rest[2] else 0);
  }

  // ---------------------------------------------------------------- the decoder

  /** The number that the decoder collects the sextets of a group in. */
  function Collected(s: seq<Sextet>): nat {
    if s == [] then 0 else Collected(s[..|s| - 1]) * 64 + s[|s| - 1]
  }

  /** The bytes of four sextets are those of their 24-bit number. */
  lemma UngroupOf(a: Sextet, b: Sextet, c: Sextet, d: Sextet)
    ensures var n := ((a * 64 + b as int) * 64 + c) * 64 + d;
      Ungroup(a, b, c, d) == [n / 0x1_0000 % 0x100, n / 0x100 % 0x100, n % 0x100]
  {
    var n: nat := ((a * 64 + b as int) * 64 + c) * 64 + d;
    var e: nat, bh: nat, bl: nat, ch: nat, cl: nat := a, b / 16, b % 16, c / 4, c % 4;
    DivisionIs(n, 0x1_0000, 4 * e + bh, bl * 0x1000 + (4 * ch + cl) * 64 + d);
    DivisionIs(n, 0x100, 0x400 * e + 0x100 * bh + 16 * bl + ch, 64 * cl + d);
    DivisionIs(0x400 * e + 0x100 * bh + 16 * bl + ch, 0x100, 4 * e + bh, 16 * bl + ch);
  }

  lemma {:induction false} UnpackedAppend(full: seq<Sextet>, group: seq<Sextet>)
    requires |full| % 4 == 0
    ensures Unpacked(full + group) == Unpacked(full) + Unpacked(group)
  {
    hide Ungroup;
    if full == [] {
      assert full + group == group;
    } else {
      assert (full + group)[4..] == full[4..] + group;
      UnpackedAppend(full[4..], group);
    }
  }

  // The bytes that the decoder takes out of the number of a full group, and of a last group of three or two sextets
  function BytesOfFour(n: nat): (r: seq<Byte>) ensures |r| == 3 { [n / 0x1_0000 % 0x100, n / 0x100 % 0x100, n % 0x100] }

  function BytesOfThree(n: nat): (r: seq<Byte>) ensures |r| == 2 { [n / 0x400 % 0x100, n / 4 % 0x100] }

  function BytesOfTwo(n: nat): (r: seq<Byte>) ensures |r| == 1 { [n / 16 % 0x100] }

  function BytesOfGroup(s: seq<Sextet>): seq<Byte>
    requires |s| <= 4
  {
    if |s| == 4 then BytesOfFour(Collected(s))
    else if |s| == 3 then BytesOfThree(Collected(s))
    else if |s| == 2 then BytesOfTwo(Collected(s))
    else []
  }

  lemma CollectedStep(s: seq<Sextet>)
    requires s != []
    ensures Collected(s) == Collected(s[..|s| - 1]) * 64 + s[|s| - 1]
  {}

  lemma FourDecoded(s: seq<Sextet>)
    requires |s| == 4
    ensures Unpacked(s) == BytesOfFour(Collected(s))
  {
    CollectedStep(s);
    CollectedStep(s[..3]);
    CollectedStep(s[..2]);
    CollectedStep(s[..1]);
    hide Collected, Ungroup;
    assert s[4..] == [];
    UngroupOf(s[0], s[1], s[2], s[3]);
  }

  /** The bytes of three sextets are the first two of the group that a zero completes. */
  lemma ShiftedThree(b: nat)
    ensures BytesOfThree(b) == BytesOfFour(b * 64)[..2]
  {
    DivisionIs(b * 64, 0x1_0000, b / 0x400, b % 0x400 * 64);
    DivisionIs(b * 64, 0x100, b / 4, b % 4 * 64);
  }

  lemma ShiftedTwo(b: nat)
    ensures BytesOfTwo(b) == BytesOfFour(b * 0x1000)[..1]
  {
    DivisionIs(b * 0x1000, 0x1_0000, b / 16, b % 16 * 0x1000);
  }

  lemma ThreeDecoded(s: seq<Sextet>)
    requires |s| == 3
    ensures Unpacked(s) == BytesOfThree(Collected(s))
  {
    CollectedStep(s);
    CollectedStep(s[..2]);
    CollectedStep(s[..1]);
    UngroupOf(s[0], s[1], s[2], 0);
    ShiftedThree(Collected(s));
    hide Collected, Ungroup, BytesOfThree;
  }

  lemma TwoDecoded(s: seq<Sextet>)
    requires |s| == 2
    ensures Unpacked(s) == BytesOfTwo(Collected(s))
  {
    CollectedStep(s);
    CollectedStep(s[..1]);
    UngroupOf(s[0], s[1], 0, 0);
    ShiftedTwo(Collected(s));
    hide Collected, Ungroup, BytesOfTwo;
  }

  /** One more group keeps all bytes so far. */
  lemma GroupDecoded(full: seq<Sextet>, s: seq<Sextet>)
    requires |full| % 4 == 0 && |s| <= 4
    ensures Unpacked(full + s) == Unpacked(full) + BytesOfGroup(s)
  {
    hide Ungroup, BytesOfFour, BytesOfThree, BytesOfTwo, Collected;
    UnpackedAppend(full, s);
    if |s| == 4 { FourDecoded(s); }
    if |s| == 3 { ThreeDecoded(s); }
    if |s| == 2 { TwoDecoded(s); }
  }

  datatype ErrorCode = ErrSuccess | ErrInvalidData | ErrBufTooSmall

  function Code(d: Decoding): ErrorCode {
    match d
    case Ok(_) => ErrSuccess
    case InvalidData => ErrInvalidData
    case BufTooSmall => ErrBufTooSmall
  }

  function Min(a: nat, b: nat): nat {
    if a <= b then a else b
  }

  /** What the decoder leaves in its output: the whole result, or on an error all full groups that came before it and
      fit. */
  function Output(text: string, capacity: nat): (bytes: seq<Byte>)
    ensures |bytes| <= capacity
  {
    match Decoded(text, capacity)
    case Ok(bytes) => bytes
    case _ =>
      var s := Scanned(text).0;
      Unpacked(s[..4 * Min(|s| / 4, capacity / 3)])
  }

  /** Everything decoded so far is written, and nothing behind it. */
  ghost predicate Filled(out: array<Byte>, bytes: seq<Byte>, was: seq<Byte>)
    reads out
  {
    && |bytes| <= out.Length == |was|
    && out[..] == bytes + was[|bytes|..]
  }

  /** Writes a group's bytes behind those before it. */
  method PutGroup(out: array<Byte>, i: nat, group: seq<Byte>, ghost bytes: seq<Byte>, ghost was: seq<Byte>)
    requires Filled(out, bytes, was) && i == |bytes| && 1 <= |group| <= 3 && i + |group| <= out.Length
    modifies out
    ensures Filled(out, bytes + group, was)
  {
    out[i] := group[0];
    if |group| > 1 {
      out[i + 1] := group[1];
    }
    if |group| > 2 {
      out[i + 2] := group[2];
    }
  }

  /** chiaki_base64_decode, for texts of seven-bit characters */
  method Decode(text: string, out: array<Byte>) returns (err: ErrorCode, outSize: nat)
    requires forall i | 0 <= i < |text| :: text[i] < 128 as char
    modifies out
    ensures err == Code(Decoded(text, out.Length))
    ensures outSize == if err.ErrSuccess? then |Decoded(text, out.Length).bytes| else out.Length
    ensures Filled(out, Output(text, out.Length), old(out[..]))
  {
    hide Scanned, Unpacked, Collected, Filled, BytesOfFour, BytesOfThree, BytesOfTwo, Output, Decoded, Classify;
    ghost var was := out[..];
    ghost var full: seq<Sextet>, group: seq<Sextet> := [], [];
    var capacity := out.Length;
    var iter, buf, len: nat, i := 0, 0, 0, 0;
    outSize := capacity;
    NothingDecoded(text, out);
    while i < |text|
      invariant 0 <= i <= |text|
      invariant |full| % 4 == 0 && iter == |group| < 4 && buf == Collected(group)
      invariant len == |Unpacked(full)| <= capacity
      invariant Filled(out, Unpacked(full), was)
      invariant Scanned(text).0 == full + group + Scanned(text[i..]).0 && Scanned(text).1 == Scanned(text[i..]).1
    {
      ScannedStep(text, i);
      var c := Classify(text[i]);
      i := i + 1;
      match c {
        case Whitespace =>
        case Invalid =>
          Stopped(text, full, group, [], capacity);
          return ErrInvalidData, outSize;
        case Equals =>
          i := |text|;
          ScannedNothing(text);
        case Value(v) =>
          ghost var collected := group + [v];
          CollectedAppend(group, v);
          assert full + collected + Scanned(text[i..]).0 == full + group + ([v] + Scanned(text[i..]).0);
          buf := buf * 64 + v;
          iter := iter + 1;
          if iter == 4 {
            len := len + 3;
            if len > capacity {
              Stopped(text, full, collected, Scanned(text[i..]).0, capacity);
              return ErrBufTooSmall, outSize;
            }
            GroupDecoded(full, collected);
            PutGroup(out, len - 3, BytesOfFour(buf), Unpacked(full), was);
            full, group := full + collected, [];
            buf := 0;
            iter := 0;
          } else {
            group := collected;
          }
      }
    }
    ScannedNothing(text);
    assert Scanned(text).0 == full + group;
    err, outSize := DecodeLast(text, out, iter, buf, len, full, group, was);
  }

  /** The end of chiaki_base64_decode, with a last group of `iter` sextets */
  method DecodeLast(text: string, out: array<Byte>, iter: nat, buf: nat, fullLen: nat,
                    ghost full: seq<Sextet>, ghost group: seq<Sextet>, ghost was: seq<Byte>)
      returns (err: ErrorCode, outSize: nat)
    requires Scanned(text) == (full + group, false) && |full| % 4 == 0
    requires iter == |group| < 4 && buf == Collected(group) && fullLen == |Unpacked(full)|
    requires Filled(out, Unpacked(full), was)
    modifies out
    ensures err == Code(Decoded(text, out.Length))
    ensures outSize == if err.ErrSuccess? then |Decoded(text, out.Length).bytes| else out.Length
    ensures Filled(out, Output(text, out.Length), was)
  {
    hide Scanned, Unpacked, Collected, BytesOfFour, BytesOfThree, BytesOfTwo, Decoded, Output;
    LastDecoded(text, full, group, out.Length);
    hide Filled;
    assert Unpacked(full) + [] == Unpacked(full);
    var len := fullLen;
    if iter == 3 {
      len := len + 2;
      if len > out.Length {
        return ErrBufTooSmall, out.Length;
      }
      PutGroup(out, len - 2, BytesOfThree(buf), Unpacked(full), was);
    } else if iter == 2 {
      len := len + 1;
      if len > out.Length {
        return ErrBufTooSmall, out.Length;
      }
      PutGroup(out, len - 1, BytesOfTwo(buf), Unpacked(full), was);
    }
    return ErrSuccess, len;
  }

  lemma LastDecoded(text: string, full: seq<Sextet>, group: seq<Sextet>, capacity: nat)
    requires Scanned(text) == (full + group, false) && |full| % 4 == 0 && |group| < 4 && |Unpacked(full)| <= capacity
    ensures var bytes := Unpacked(full) + BytesOfGroup(group);
      if |bytes| <= capacity then Decoded(text, capacity) == Ok(bytes) && Output(text, capacity) == bytes
      else Decoded(text, capacity) == BufTooSmall && Output(text, capacity) == Unpacked(full)
  {
    hide Scanned, Unpacked, Collected, BytesOfFour, BytesOfThree, BytesOfTwo;
    GroupDecoded(full, group);
    if |Unpacked(full + group)| > capacity { Stopped(text, full, group, [], capacity); }
  }

  lemma NothingDecoded(text: string, out: array<Byte>)
    ensures Filled(out, Unpacked([]), out[..]) && Collected([]) == 0
    ensures text[0..] == text && [] + [] + Scanned(text[0..]).0 == Scanned(text).0
  {}

  lemma ScannedNothing(text: string)
    ensures Scanned(text[|text|..]) == ([], false)
  {}

  lemma ScannedStep(text: string, i: nat)
    requires i < |text|
    ensures var next := Scanned(text[i + 1..]);
      Scanned(text[i..]) == match Classify(text[i])
                            case Value(v) => ([v] + next.0, next.1)
                            case Whitespace => next
                            case Equals => ([], false)
                            case Invalid => ([], true)
  {
    assert text[i..][1..] == text[i + 1..];
  }

  lemma CollectedAppend(group: seq<Sextet>, v: Sextet)
    ensures Collected(group + [v]) == Collected(group) * 64 + v
  {
    assert (group + [v])[..|group|] == group;
  }

  /** What an error leaves: the decoder stopped with all full groups written that came before it. */
  lemma Stopped(text: string, full: seq<Sextet>, group: seq<Sextet>, rest: seq<Sextet>, capacity: nat)
    requires Scanned(text).0 == full + group + rest && |full| % 4 == 0 && |Unpacked(full)| <= capacity
    requires if |group| == 4 then |Unpacked(full)| + 3 > capacity
             else |group| < 4 && rest == [] && (Scanned(text).1 || |Unpacked(full + group)| > capacity)
    ensures Decoded(text, capacity) == if |group| < 4 && Scanned(text).1 then InvalidData else BufTooSmall
    ensures Output(text, capacity) == Unpacked(full)
  {
    hide Scanned, Unpacked;
    var s, k := Scanned(text).0, |full| / 4;
    assert |Unpacked(full)| == 3 * k;
    assert s[..4 * k] == full;
    assert rest == [] ==> s == full + group;
    assert |group| < 4 ==> |s| / 4 == k;
    assert |group| == 4 ==> |s| / 4 > k && |Unpacked(s)| >= 3 * k + 3;
    assert Min(|s| / 4, capacity / 3) == k;
  }
}
