/** `Buffer.from(s).toString('base64')`: the UTF-8 bytes of a string, encoded
    with the base 64 alphabet of section 4 of RFC 4648 (with `=` padding). */
module Base64 {

  type Byte = b: int | 0 <= b < 256

  /** UTF-8 encoding of one Unicode scalar value (1 to 4 bytes). */
  function Utf8Char(c: char): (bs: seq<Byte>)
    ensures 1 <= |bs| <= 4
    ensures (c as int) < 0x80 <==> |bs| == 1
    ensures (c as int) < 0x80 ==> bs == [c as int]
  {
    var n := c as int;
    if n < 0x80 then [n]
    else if n < 0x800 then [0xC0 + n / 64, 0x80 + n % 64]
    else if n < 0x10000 then [0xE0 + n / 4096, 0x80 + (n / 64) % 64, 0x80 + n % 64]
    else [0xF0 + n / 262144, 0x80 + (n / 4096) % 64, 0x80 + (n / 64) % 64, 0x80 + n % 64]
  }

  /** `Buffer.from(s)`: the UTF-8 bytes of the whole string. */
  function Utf8(s: string): (bs: seq<Byte>)
    ensures |bs| >= |s|
    decreases |s|
  {
    if s == [] then [] else Utf8Char(s[0]) + Utf8(s[1..])
  }

  predicate IsAscii(s: string) { forall i :: 0 <= i < |s| ==> (s[i] as int) < 0x80 }

  lemma {:induction false} Utf8Append(a: string, b: string)
    ensures Utf8(a + b) == Utf8(a) + Utf8(b)
    decreases |a|
  {
    if a != [] {
      assert (a + b)[1..] == a[1..] + b;
      Utf8Append(a[1..], b);
    } else {
      assert a + b == b;
    }
  }

  lemma {:induction false} Utf8Ascii(s: string)
    requires IsAscii(s)
    ensures |Utf8(s)| == |s|
    ensures forall i :: 0 <= i < |s| ==> Utf8(s)[i] == s[i] as int
    decreases |s|
  {
    if s != [] {
      Utf8Ascii(s[1..]);
    }
  }

  // ---------------------------------------------------------------------------

  function Sym(v: nat): (c: char)
    requires v < 64
    ensures IsBase64Char(c) && c != '='
  {
    if v < 26 then (('A' as int) + v) as char
    else if v < 52 then (('a' as int) + (v - 26)) as char
    else if v < 62 then (('0' as int) + (v - 52)) as char
    else if v == 62 then '+'
    else '/'
  }

  /** The characters a base 64 text can contain. */
  predicate IsBase64Char(c: char) {
    'A' <= c <= 'Z' || 'a' <= c <= 'z' || '0' <= c <= '9' || c == '+' || c == '/' || c == '='
  }

  /** One group of up to three bytes becomes four characters, padded with `=`. */
  function EncodeGroup(g: seq<Byte>): (r: string)
    requires 1 <= |g| <= 3
    ensures |r| == 4
    ensures forall i :: 0 <= i < 4 ==> IsBase64Char(r[i])
  {
    if |g| == 1 then
      [Sym(g[0] / 4), Sym((g[0] % 4) * 16), '=', '=']
    else if |g| == 2 then
      [Sym(g[0] / 4), Sym((g[0] % 4) * 16 + g[1] / 16), Sym((g[1] % 16) * 4), '=']
    else
      [Sym(g[0] / 4), Sym((g[0] % 4) * 16 + g[1] / 16), Sym((g[1] % 16) * 4 + g[2] / 64), Sym(g[2] % 64)]
  }

  /** Base 64 text of a byte sequence: each group of three bytes in turn. */
  function Encode(bs: seq<Byte>): (r: string)
    ensures |r| % 4 == 0 && (bs == [] <==> r == [])
    decreases |bs|
  {
    if bs == [] then []
    else if |bs| <= 3 then EncodeGroup(bs)
    else EncodeGroup(bs[..3]) + Encode(bs[3..])
  }

  /** Four characters for every started group of three bytes. */
  lemma {:induction false} EncodeLength(bs: seq<Byte>)
    ensures |Encode(bs)| == 4 * ((|bs| + 2) / 3)
    decreases |bs|
  {
    if |bs| > 3 {
      EncodeLength(bs[3..]);
      var n := |bs|;
      assert (n + 2) / 3 == (n - 3 + 2) / 3 + 1;
    }
  }

  /** Every character of the text is from the alphabet or is padding. */
  lemma {:induction false} EncodeChars(bs: seq<Byte>)
    ensures forall i :: 0 <= i < |Encode(bs)| ==> IsBase64Char(Encode(bs)[i])
    decreases |bs|
  {
    if |bs| > 3 {
      EncodeChars(bs[3..]);
      var r := Encode(bs);
      assert r == EncodeGroup(bs[..3]) + Encode(bs[3..]);
      forall i | 0 <= i < |r| ensures IsBase64Char(r[i]) {
        if i >= 4 {
          assert r[i] == Encode(bs[3..])[i - 4];
        }
      }
    }
  }

  /** The first 4k characters of the text depend only on the first 3k bytes. */
  lemma {:induction false} EncodePrefix(bs: seq<Byte>, k: nat)
    requires 3 * k <= |bs|
    ensures 4 * k <= |Encode(bs)| && Encode(bs)[..4 * k] == Encode(bs[..3 * k])
    decreases k
  {
    EncodeLength(bs);
    GroupsAtLeast(|bs|, k);
    if k == 1 {
      EncodeFirstGroup(bs);
    } else if k > 1 {
      var rest := bs[3..];
      assert Encode(bs) == EncodeGroup(bs[..3]) + Encode(rest);
      EncodePrefix(rest, k - 1);
      EncodeFront(bs, k);
    }
  }

  lemma EncodeFirstGroup(bs: seq<Byte>)
    requires 3 <= |bs|
    ensures 4 <= |Encode(bs)| && Encode(bs)[..4] == Encode(bs[..3]) == EncodeGroup(bs[..3])
  {
    if |bs| == 3 {
      assert bs[..3] == bs;
    } else {
      assert Encode(bs) == EncodeGroup(bs[..3]) + Encode(bs[3..]);
    }
  }

  lemma GroupsAtLeast(n: nat, k: nat)
    requires 3 * k <= n
    ensures 4 * k <= 4 * ((n + 2) / 3)
  {
  }

  lemma EncodeFront(bs: seq<Byte>, k: nat)
    requires 2 <= k && 3 * k <= |bs|
    ensures Encode(bs[..3 * k]) == EncodeGroup(bs[..3]) + Encode(bs[3..][..3 * (k - 1)])
  {
    var front := bs[..3 * k];
    assert front[..3] == bs[..3];
    assert front[3..] == bs[3..][..3 * (k - 1)];
  }
}
