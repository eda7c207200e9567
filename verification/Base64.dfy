// Base64 in the standard and the URL-safe alphabet (sections 4 and 5 of RFC 4648). Bytes are
// bit vectors here, so that shifts and masks are those of the C program.
module Base64 {
  import opened Base

  const PAD: bv8 := 61
  const INVALID: bv8 := 77

  // the character for six bits
  function Digit(v: bv8, url: bool): bv8
    requires v < 64
  {
    if v < 26 then 65 + v
    else if v < 52 then 97 + (v - 26)
    else if v < 62 then 48 + (v - 52)
    else if v == 62 then (if url then 45 else 43)
    else (if url then 95 else 47)
  }

  // the decoding table
  function Value(c: bv8, url: bool): bv8
  {
    if 65 <= c <= 90 then c - 65
    else if 97 <= c <= 122 then c - 97 + 26
    else if 48 <= c <= 57 then c - 48 + 52
    else if c == (if url then 45 else 43) then 62
    else if c == (if url then 95 else 47) then 63
    else INVALID
  }

  // the four six-bit parts of three bytes
  function First(x: bv8): (v: bv8)
    ensures v < 64
  {
    (x >> 2) & 0x3f
  }

  function Second(x: bv8, y: bv8): (v: bv8)
    ensures v < 64
  {
    ((x & 3) << 4) | (y >> 4)
  }

  function Third(y: bv8, z: bv8): (v: bv8)
    ensures v < 64
  {
    ((y & 0x0f) << 2) | (z >> 6)
  }

  function Fourth(z: bv8): (v: bv8)
    ensures v < 64
  {
    z & 0x3f
  }

  // and the three bytes of four such parts
  function Byte0(a: bv8, b: bv8): bv8 { (a << 2) | (b >> 4) }
  function Byte1(b: bv8, c: bv8): bv8 { (b << 4) | (c >> 2) }
  function Byte2(c: bv8, d: bv8): bv8 { (c << 6) | d }

  // the digits of s, three bytes to four digits; a last group of one or two bytes takes two or three
  function Digits(s: seq<bv8>, url: bool): seq<bv8>
  {
    if s == [] then []
    else if |s| == 1 then [Digit(First(s[0]), url), Digit(Second(s[0], 0), url)]
    else if |s| == 2 then
      [Digit(First(s[0]), url), Digit(Second(s[0], s[1]), url), Digit(Third(s[1], 0), url)]
    else
      [Digit(First(s[0]), url), Digit(Second(s[0], s[1]), url),
       Digit(Third(s[1], s[2]), url), Digit(Fourth(s[2]), url)] + Digits(s[3..], url)
  }

  function Padding(n: nat, url: bool): seq<bv8>
  {
    if url || n % 3 == 0 then [] else if n % 3 == 1 then [PAD, PAD] else [PAD]
  }

  function Encode(s: seq<bv8>, url: bool): seq<bv8>
  {
    Digits(s, url) + Padding(|s|, url)
  }

  predicate Valid(s: seq<bv8>, url: bool)
  {
    forall i :: 0 <= i < |s| ==> s[i] != PAD && Value(s[i], url) != INVALID
  }

  // the length of the part before the first padding character, or -1 if it holds an invalid one
  function Clean(s: seq<bv8>, url: bool): int
  {
    if s == [] || s[0] == PAD then 0
    else if Value(s[0], url) == INVALID || Clean(s[1..], url) < 0 then -1
    else 1 + Clean(s[1..], url)
  }

  function Bytes(s: seq<bv8>, url: bool): seq<bv8>
  {
    if |s| < 2 then []
    else
      var a, b := Value(s[0], url), Value(s[1], url);
      if |s| == 2 then [Byte0(a, b)]
      else
        var c := Value(s[2], url);
        if |s| == 3 then [Byte0(a, b), Byte1(b, c)]
        else
          [Byte0(a, b), Byte1(b, c), Byte2(c, Value(s[3], url))] + Bytes(s[4..], url)
  }

  datatype Decoded = Failed | Done(data: seq<bv8>)

  function Decode(s: seq<bv8>, url: bool): Decoded
  {
    var n := Clean(s, url);
    CleanLength(s, url);
    if n < 0 || n % 4 == 1 then Failed else Done(Bytes(s[..n], url))
  }

  lemma {:induction false} CleanLength(s: seq<bv8>, url: bool)
    ensures -1 <= Clean(s, url) <= |s|
  {
    if s != [] { CleanLength(s[1..], url); }
  }

  lemma {:induction false} CleanPrefix(a: seq<bv8>, rest: seq<bv8>, url: bool)
    requires Valid(a, url)
    ensures Clean(a + rest, url) == if Clean(rest, url) < 0 then -1 else |a| + Clean(rest, url)
  {
    if a == [] {
      assert a + rest == rest;
    } else {
      assert (a + rest)[1..] == a[1..] + rest;
      CleanPrefix(a[1..], rest, url);
    }
  }

  lemma ValueOfDigit(v: bv8, url: bool)
    requires v < 64
    ensures Value(Digit(v, url), url) == v
    ensures Digit(v, url) != PAD
  {
  }

  lemma {:induction false} DigitsAreValid(s: seq<bv8>, url: bool)
    ensures Valid(Digits(s, url), url)
  {
    if |s| == 0 {
    } else if |s| == 1 {
      ValueOfDigit(First(s[0]), url);
      ValueOfDigit(Second(s[0], 0), url);
    } else if |s| == 2 {
      ValueOfDigit(First(s[0]), url);
      ValueOfDigit(Second(s[0], s[1]), url);
      ValueOfDigit(Third(s[1], 0), url);
    } else {
      ValueOfDigit(First(s[0]), url);
      ValueOfDigit(Second(s[0], s[1]), url);
      ValueOfDigit(Third(s[1], s[2]), url);
      ValueOfDigit(Fourth(s[2]), url);
      DigitsAreValid(s[3..], url);
    }
  }

  lemma {:induction false} DigitsLength(s: seq<bv8>, url: bool)
    ensures |Digits(s, url)| == |s| / 3 * 4 + (if |s| % 3 == 0 then 0 else |s| % 3 + 1)
  {
    if |s| > 2 { DigitsLength(s[3..], url); }
  }

  // three bytes come back from their four parts
  lemma Group(x: bv8, y: bv8, z: bv8)
    ensures Byte0(First(x), Second(x, y)) == x
    ensures Byte1(Second(x, y), Third(y, z)) == y
    ensures Byte2(Third(y, z), Fourth(z)) == z
  {
  }

  lemma {:induction false} BytesOfDigits(s: seq<bv8>, url: bool)
    ensures Bytes(Digits(s, url), url) == s
  {
    if |s| == 0 {
    } else if |s| == 1 {
      ValueOfDigit(First(s[0]), url);
      ValueOfDigit(Second(s[0], 0), url);
      Group(s[0], 0, 0);
    } else if |s| == 2 {
      ValueOfDigit(First(s[0]), url);
      ValueOfDigit(Second(s[0], s[1]), url);
      ValueOfDigit(Third(s[1], 0), url);
      Group(s[0], s[1], 0);
    } else {
      ValueOfDigit(First(s[0]), url);
      ValueOfDigit(Second(s[0], s[1]), url);
      ValueOfDigit(Third(s[1], s[2]), url);
      ValueOfDigit(Fourth(s[2]), url);
      Group(s[0], s[1], s[2]);
      assert Digits(s, url)[4..] == Digits(s[3..], url);
      BytesOfDigits(s[3..], url);
      assert s == [s[0], s[1], s[2]] + s[3..];
    }
  }

  // Decoding inverts encoding in both alphabets.
  lemma RoundTrip(s: seq<bv8>, url: bool)
    ensures Decode(Encode(s, url), url) == Done(s)
  {
    var d, rest := Digits(s, url), Padding(|s|, url);
    DigitsAreValid(s, url);
    assert Clean(rest, url) == 0;
    CleanPrefix(d, rest, url);
    assert (d + rest)[..|d|] == d;
    assert |d| % 4 != 1 by { DigitsLength(s, url); }
    BytesOfDigits(s, url);
  }

  // ---------- the alphabets and the published examples ----------

  const UPPER := "ABCDEFGHIJKLMNOPQRSTUVWXYZ"
  const LOWER := "abcdefghijklmnopqrstuvwxyz"
  const NUMBERS := "0123456789"

  // the 64 characters in order, as section 4 of RFC 4648 lists them, and section 5 for URLs
  function Alphabet(url: bool): (r: string)
    ensures |r| == 64
  {
    ((UPPER + LOWER) + NUMBERS) + (if url then "-_" else "+/")
  }

  lemma {:induction false} DigitIs(v: bv8, url: bool)
    requires v < 64
    ensures Digit(v, url) as int == Alphabet(url)[v as int] as int
  {
    var k := v as int;
    DigitCode(v, url);
    if k < 26 {
      assert UPPER[k] as int == 65 + k;
    } else if k < 52 {
      assert LOWER[k - 26] as int == 97 + (k - 26);
    } else if k < 62 {
      assert NUMBERS[k - 52] as int == 48 + (k - 52);
    }
  }

  lemma DigitCode(v: bv8, url: bool)
    requires v < 64
    ensures Digit(v, url) as int == if v as int < 26 then 65 + v as int else if v as int < 52 then 97 + (v as int - 26)
                                    else if v as int < 62 then 48 + (v as int - 52)
                                    else if v as int == 62 then (if url then 45 else 43) else (if url then 95 else 47)
  {
  }

  lemma DigitOfValue(c: bv8, url: bool)
    requires Value(c, url) != INVALID
    ensures Value(c, url) < 64 && Digit(Value(c, url), url) == c
  {
  }

  lemma Parts(x: bv8, y: bv8, z: bv8)
    ensures (((First(x) as bv24 << 18) | (Second(x, y) as bv24 << 12)) | (Third(y, z) as bv24 << 6)) | Fourth(z) as bv24
         == ((x as bv24 << 16) | (y as bv24 << 8)) | z as bv24
  {
  }

  lemma PartsBack(a: bv8, b: bv8, c: bv8, d: bv8)
    requires a < 64 && b < 64 && c < 64 && d < 64
    ensures ((Byte0(a, b) as bv24 << 16) | (Byte1(b, c) as bv24 << 8)) | Byte2(c, d) as bv24
         == (((a as bv24 << 18) | (b as bv24 << 12)) | (c as bv24 << 6)) | d as bv24
  {
  }

  // Decoding fails exactly if before the padding there is a character outside the alphabet, or one
  // character is left over.
  lemma {:induction false} DecodeFailsIff(a: seq<bv8>, rest: seq<bv8>, url: bool)
    requires PAD !in a && (rest != [] ==> rest[0] == PAD)
    ensures Decode(a + rest, url).Failed? <==> |a| % 4 == 1 || exists i :: 0 <= i < |a| && Value(a[i], url) == INVALID
    ensures Decode(a + rest, url).Done? ==> Decode(a + rest, url).data == Bytes(a, url)
  {
    CleanUpTo(a, rest, url);
    assert (a + rest)[..|a|] == a;
  }

  lemma {:induction false} CleanUpTo(a: seq<bv8>, rest: seq<bv8>, url: bool)
    requires PAD !in a && (rest != [] ==> rest[0] == PAD)
    ensures Clean(a + rest, url) == if Valid(a, url) then |a| else -1
  {
    if a == [] {
      assert a + rest == rest;
    } else {
      assert (a + rest)[1..] == a[1..] + rest;
      CleanUpTo(a[1..], rest, url);
      assert Valid(a, url) <==> Value(a[0], url) != INVALID && Valid(a[1..], url) by { ValidFirst(a, url); }
    }
  }

  lemma ValidFirst(a: seq<bv8>, url: bool)
    requires a != [] && a[0] != PAD
    ensures Valid(a, url) <==> Value(a[0], url) != INVALID && Valid(a[1..], url)
  {
    if Value(a[0], url) != INVALID && Valid(a[1..], url) {
      forall i | 0 <= i < |a| ensures a[i] != PAD && Value(a[i], url) != INVALID {
        if i > 0 { assert a[i] == a[1..][i - 1]; }
      }
    }
  }

  // the examples of section 10 of RFC 4648: f, fo, foo and foobar, and f without the padding
  lemma Vectors()
    ensures Encode([102], false) == [90, 103, PAD, PAD] && Encode([102], true) == [90, 103]
    ensures Encode([102, 111], false) == [90, 109, 56, PAD]
    ensures Encode([102, 111, 111], false) == [90, 109, 57, 118]
    ensures Encode([102, 111, 111, 98, 97, 114], false) == [90, 109, 57, 118, 89, 109, 70, 121]
  {
  }

  // the macros that size the buffers
  function EncodedLength(n: nat): nat { (n + 2) / 3 * 4 }
  function DecodedLength(n: nat): nat { (n + 3) / 4 * 3 }

  // the number of bytes that n characters decode to
  function Yield(n: nat): nat { n / 4 * 3 + (if n % 4 == 0 then 0 else n % 4 - 1) }

  lemma YieldOfGroup(n: nat)
    requires n > 3
    ensures Yield(n) == 3 + Yield(n - 4) && (n - 4) % 4 == n % 4
  {
  }

  lemma YieldOfRest(n: nat)
    requires n < 4 && n != 1
    ensures Yield(n) == if n == 0 then 0 else n - 1
  {
  }

  lemma YieldFits(len: nat, n: nat)
    requires len <= n
    ensures Yield(len) <= len && Yield(len) <= DecodedLength(n)
  {
  }

  lemma LengthOfGroup(n: nat)
    ensures n > 2 ==> EncodedLength(n) == 4 + EncodedLength(n - 3)
    ensures 0 < n <= 3 ==> EncodedLength(n) == 4
  {
  }

  lemma EncodedFits(s: seq<bv8>, url: bool)
    ensures |Encode(s, url)| <= EncodedLength(|s|)
    ensures !url ==> |Encode(s, url)| == EncodedLength(|s|)
  {
    DigitsLength(s, url);
  }

  lemma {:induction false} BytesLength(s: seq<bv8>, url: bool)
    ensures |Bytes(s, url)| == Yield(|s|)
  {
    if |s| > 3 { BytesLength(s[4..], url); }
  }

  lemma DecodedFits(s: seq<bv8>, url: bool)
    requires Decode(s, url).Done?
    ensures |Decode(s, url).data| <= DecodedLength(|s|)
  {
    CleanLength(s, url);
    BytesLength(s[..Clean(s, url)], url);
  }

  method PutFour(dst: array<bv8>, d: nat, w: bv8, x: bv8, y: bv8, z: bv8)
    requires d + 4 <= dst.Length
    modifies dst
    ensures dst[..d + 4] == old(dst[..d]) + [w, x, y, z]
    ensures forall k :: d + 4 <= k < dst.Length ==> dst[k] == old(dst[k])
  {
    dst[d] := w;
    dst[d + 1] := x;
    dst[d + 2] := y;
    dst[d + 3] := z;
  }

  lemma DigitsGroup(s: seq<bv8>, url: bool, done: seq<bv8>)
    requires |s| > 2
    ensures var group := [Digit(First(s[0]), url), Digit(Second(s[0], s[1]), url), Digit(Third(s[1], s[2]), url),
                          Digit(Fourth(s[2]), url)];
            done + Digits(s, url) == (done + group) + Digits(s[3..], url)
  {
  }

  // One turn of the encoder's loop.
  method EncodeGroup(dst: array<bv8>, d: nat, src: array<bv8>, s: nat, ghost text: seq<bv8>, url: bool)
    requires dst != src && d + 4 <= dst.Length && |text| > 2 && Unread(src, s, text)
    modifies dst
    ensures dst[..d + 4] + Digits(text[3..], url) == old(dst[..d]) + Digits(text, url)
    ensures Unread(src, s + 3, text[3..])
    ensures forall k :: d + 4 <= k < dst.Length ==> dst[k] == old(dst[k])
  {
    DigitsGroup(text, url, dst[..d]);
    assert src[s] == text[0] && src[s + 1] == text[1] && src[s + 2] == text[2];
    PutFour(dst, d, Digit(First(src[s]), url), Digit(Second(src[s], src[s + 1]), url),
      Digit(Third(src[s + 1], src[s + 2]), url), Digit(Fourth(src[s + 2]), url));
  }

  method Push(dst: array<bv8>, n: nat, x: bv8) returns (m: nat)
    requires n < dst.Length
    modifies dst
    ensures m == n + 1 && dst[..m] == old(dst[..n]) + [x]
    ensures forall k :: m <= k < dst.Length ==> dst[k] == old(dst[k])
  {
    dst[n] := x;
    m := n + 1;
  }

  // The last one or two bytes, with the padding.
  method EncodeRest(dst: array<bv8>, d: nat, src: array<bv8>, s: nat, ghost text: seq<bv8>, url: bool) returns (n: nat)
    requires dst != src && d + 4 <= dst.Length && 1 <= |text| <= 2 && s + |text| == src.Length && Unread(src, s, text)
    modifies dst
    ensures d <= n <= dst.Length && dst[..n] == old(dst[..d]) + Encode(text, url)
    ensures forall k :: n <= k < dst.Length ==> dst[k] == old(dst[k])
  {
    assert src[s] == text[0];
    ghost var done := dst[..d];
    n := Push(dst, d, Digit(First(src[s]), url));
    if src.Length - s == 1 {
      n := Push(dst, n, Digit(Second(src[s], 0), url));
      if !url {
        n := Push(dst, n, PAD);
      }
    } else {
      assert src[s + 1] == text[1];
      n := Push(dst, n, Digit(Second(src[s], src[s + 1]), url));
      n := Push(dst, n, Digit(Third(src[s + 1], 0), url));
    }
    if !url {
      n := Push(dst, n, PAD);
    }
    assert dst[..n] == done + Encode(text, url);
  }

  lemma PaddingOfGroup(n: nat, url: bool)
    requires n > 2
    ensures Padding(n, url) == Padding(n - 3, url)
  {
  }

  // The encoder's loop writes what Encode says and nothing after it.
  method EncodeInto(dst: array<bv8>, src: array<bv8>, url: bool) returns (n: nat)
    requires dst != src
    requires EncodedLength(src.Length) <= dst.Length
    modifies dst
    ensures n <= dst.Length && dst[..n] == Encode(src[..], url)
    ensures forall k :: n <= k < dst.Length ==> dst[k] == old(dst[k])
  {
    var s: nat, len: nat := 0, src.Length;
    n := 0;
    ghost var text := src[..];
    ghost var digits, padding := Digits(text, url), Padding(len, url);
    while len > 2
      invariant s + len == src.Length && padding == Padding(len, url) && len == |text| && Unread(src, s, text)
      invariant n + EncodedLength(len) <= dst.Length
      invariant dst[..n] + Digits(text, url) == digits
      invariant forall k :: n <= k < dst.Length ==> dst[k] == old(dst[k])
    {
      LengthOfGroup(len);
      PaddingOfGroup(len, url);
      EncodeGroup(dst, n, src, s, text, url);
      text := text[3..];
      n, s, len := n + 4, s + 3, len - 3;
    }
    LengthOfGroup(len);
    ghost var done := dst[..n];
    if len != 0 {
      n := EncodeRest(dst, n, src, s, text, url);
      assert done + Encode(text, url) == done + Digits(text, url) + padding;
    } else {
      assert Digits(text, url) == [];
    }
  }

  // The scan for the padding: how many characters to decode, or failure.
  method Scan(src: array<bv8>, url: bool) returns (len: int)
    ensures len == Clean(src[..], url)
  {
    len := 0;
    assert src[0..] == src[..];
    while len < src.Length
      invariant 0 <= len <= src.Length
      invariant Clean(src[..], url) ==
                if Clean(src[len..], url) < 0 then -1 else len + Clean(src[len..], url)
    {
      assert src[len..][1..] == src[len + 1..];
      CleanLength(src[len + 1..], url);
      if src[len] == PAD {
        return;
      }
      if Value(src[len], url) == INVALID {
        len := -1;
        return;
      }
      len := len + 1;
    }
  }

  method PutThree(dst: array<bv8>, d: nat, x: bv8, y: bv8, z: bv8)
    requires d + 3 <= dst.Length
    modifies dst
    ensures dst[..d + 3] == old(dst[..d]) + [x, y, z]
    ensures forall k :: d + 3 <= k < dst.Length ==> dst[k] == old(dst[k])
  {
    dst[d] := x;
    dst[d + 1] := y;
    dst[d + 2] := z;
  }

  lemma BytesGroup(s: seq<bv8>, url: bool, done: seq<bv8>)
    requires |s| > 3
    ensures var group := [Byte0(Value(s[0], url), Value(s[1], url)), Byte1(Value(s[1], url), Value(s[2], url)),
                          Byte2(Value(s[2], url), Value(s[3], url))];
            done + Bytes(s, url) == (done + group) + Bytes(s[4..], url)
  {
  }

  // One turn of the decoder's loop; src may be dst, as it is read ahead of the writing.
  method DecodeGroup(dst: array<bv8>, d: nat, src: array<bv8>, s: nat, ghost text: seq<bv8>, url: bool)
    requires d <= s && d + 3 <= dst.Length && |text| > 3 && Unread(src, s, text)
    modifies dst
    ensures dst[..d + 3] + Bytes(text[4..], url) == old(dst[..d]) + Bytes(text, url)
    ensures Unread(src, s + 4, text[4..])
    ensures forall k :: d + 3 <= k < dst.Length ==> dst[k] == old(dst[k])
  {
    BytesGroup(text, url, dst[..d]);
    assert src[s] == text[0] && src[s + 1] == text[1] && src[s + 2] == text[2] && src[s + 3] == text[3];
    PutThree(dst, d, Byte0(Value(src[s], url), Value(src[s + 1], url)),
      Byte1(Value(src[s + 1], url), Value(src[s + 2], url)), Byte2(Value(src[s + 2], url), Value(src[s + 3], url)));
  }

  // The last two or three characters.
  method DecodeRest(dst: array<bv8>, d: nat, src: array<bv8>, s: nat, len: nat, ghost text: seq<bv8>, url: bool)
    returns (n: nat)
    requires d <= s && Unread(src, s, text) && len == |text| < 4 && len != 1
    requires d <= dst.Length && d + len <= dst.Length + 1
    modifies dst
    ensures d <= n <= dst.Length && dst[..n] == old(dst[..d]) + Bytes(text, url)
    ensures forall k :: n <= k < dst.Length ==> dst[k] == old(dst[k])
  {
    n := d;
    if len > 1 {
      assert src[s] == text[0] && src[s + 1] == text[1];
      dst[n] := Byte0(Value(src[s], url), Value(src[s + 1], url));
      n := n + 1;
    }
    if len > 2 {
      assert src[s + 1] == text[1] && src[s + 2] == text[2];
      dst[n] := Byte1(Value(src[s + 1], url), Value(src[s + 2], url));
      n := n + 1;
    }
    assert dst[..n] == old(dst[..d]) + Bytes(text, url);
  }

  // The decoder fails exactly when Decode does, and otherwise writes its bytes; the two buffers
  // may be the same one.
  method DecodeInto(dst: array<bv8>, src: array<bv8>, url: bool) returns (ok: bool, n: nat)
    requires DecodedLength(src.Length) <= dst.Length || dst == src
    modifies dst
    ensures ok <==> old(Decode(src[..], url)).Done?
    ensures ok ==> n <= dst.Length && dst[..n] == old(Decode(src[..], url)).data
    ensures !ok ==> n == 0
    ensures forall k :: n <= k < dst.Length ==> dst[k] == old(dst[k])
  {
    n := 0;
    var len := Scan(src, url);
    CleanLength(src[..], url);
    if len < 0 || len % 4 == 1 {
      return false, 0;
    }
    YieldFits(len, src.Length);
    assert src[..][..len] == src[..len];
    n := DecodeGroups(dst, src, len, url);
    ok := true;
  }

  method DecodeGroups(dst: array<bv8>, src: array<bv8>, length: nat, url: bool) returns (n: nat)
    requires length <= src.Length && length % 4 != 1 && Yield(length) <= dst.Length
    modifies dst
    ensures n <= dst.Length && dst[..n] == old(Bytes(src[..length], url))
    ensures forall k :: n <= k < dst.Length ==> dst[k] == old(dst[k])
  {
    n := 0;
    var len: nat, s: nat := length, 0;
    ghost var text := src[..len];
    ghost var whole := Bytes(text, url);
    while len > 3
      invariant len == |text| && len % 4 != 1 && Unread(src, s, text)
      invariant n <= s && n + Yield(len) <= dst.Length
      invariant whole == dst[..n] + Bytes(text, url)
      invariant forall k :: n <= k < dst.Length ==> dst[k] == old(dst[k])
    {
      YieldOfGroup(len);
      DecodeGroup(dst, n, src, s, text, url);
      text := text[4..];
      n, s, len := n + 3, s + 4, len - 4;
    }
    YieldOfRest(len);
    n := DecodeRest(dst, n, src, s, len, text, url);
  }
}
