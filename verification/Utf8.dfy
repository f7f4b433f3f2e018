/** UTF-8 encoding of scalar values (section 3 of RFC 3629) and the byte order of encoded strings. */
module Utf8 {

  type Byte = n: int | 0 <= n < 256

  type Bytes = seq<Byte>

  function EncodeChar(c: char): (r: Bytes)
    ensures 1 <= |r| <= 4
  {
    var n := c as int;
    if n < 0x80 then [n]
    else if n < 0x800 then [0xC0 + n / 64, 0x80 + n % 64]
    else if n < 0x1_0000 then [0xE0 + n / 4096, 0x80 + (n / 64) % 64, 0x80 + n % 64]
    else [0xF0 + n / 262144, 0x80 + (n / 4096) % 64, 0x80 + (n / 64) % 64, 0x80 + n % 64]
  }

  function Encode(s: string): Bytes {
    if s == "" then [] else EncodeChar(s[0]) + Encode(s[1..])
  }

  /** The length of an encoded character, read off its first byte. */
  function Length(first: Byte): nat {
    if first < 0x80 then 1 else if first < 0xE0 then 2 else if first < 0xF0 then 3 else 4
  }

  lemma {:induction false} LengthIs(c: char)
    ensures Length(EncodeChar(c)[0]) == |EncodeChar(c)|
  {
  }

  /** The code point an encoded character stands for. */
  function Decode(e: Bytes): int
    requires 1 <= |e| <= 4
  {
    var a: int := e[0];
    if |e| == 1 then a
    else
      var b: int := e[1];
      if |e| == 2 then (a - 0xC0) * 64 + (b - 0x80)
      else
        var c: int := e[2];
        if |e| == 3 then (a - 0xE0) * 4096 + (b - 0x80) * 64 + (c - 0x80)
        else (a - 0xF0) * 262144 + (b - 0x80) * 4096 + (c - 0x80) * 64 + (e[3] as int - 0x80)
  }

  lemma {:induction false} DecodeEncode(c: char)
    ensures Decode(EncodeChar(c)) == c as int
  {
    var n := c as int;
    assert n / 64 / 64 == n / 4096 && n / 4096 / 64 == n / 262144;
  }

  /** No two texts that begin with different characters have the same bytes. */
  lemma {:induction false} CharUnique(c: char, x: Bytes, d: char, y: Bytes)
    requires EncodeChar(c) + x == EncodeChar(d) + y
    ensures c == d && x == y
  {
    var e, f := EncodeChar(c), EncodeChar(d);
    var all := e + x;
    assert e[0] == all[0] == f[0];
    LengthIs(c);
    LengthIs(d);
    assert |e| == |f|;
    assert e == all[..|e|] == f;
    DecodeEncode(c);
    DecodeEncode(d);
    assert x == all[|e|..] == y;
  }

  lemma {:induction false} EncodeInjective(a: string, b: string)
    requires Encode(a) == Encode(b)
    ensures a == b
  {
    if a != "" && b != "" {
      CharUnique(a[0], Encode(a[1..]), b[0], Encode(b[1..]));
      EncodeInjective(a[1..], b[1..]);
    }
  }

  /** The zero byte encodes the NUL character and occurs in no other encoding. */
  lemma {:induction false} NoZeroByte(s: string)
    requires 0 as char !in s
    ensures 0 !in Encode(s)
  {
    if s != "" {
      NoZeroByte(s[1..]);
      assert s[0] in s;
      assert 0 !in EncodeChar(s[0]);
    }
  }

  // ----- Buffer.compare -----

  /** `a` sorts strictly before `b`. */
  predicate Less(a: Bytes, b: Bytes) {
    b != [] && (a == [] || a[0] < b[0] || (a[0] == b[0] && Less(a[1..], b[1..])))
  }

  lemma {:induction false} LessTotal(a: Bytes, b: Bytes)
    ensures Less(a, b) || a == b || Less(b, a)
    ensures !(Less(a, b) && Less(b, a)) && (a == b ==> !Less(a, b))
  {
    if a != [] && b != [] {
      LessTotal(a[1..], b[1..]);
      if a[0] == b[0] && a[1..] == b[1..] {
        assert a == [a[0]] + a[1..] && b == [b[0]] + b[1..];
      }
    }
  }

  lemma {:induction false} LessTransitive(a: Bytes, b: Bytes, c: Bytes)
    requires Less(a, b) && Less(b, c)
    ensures Less(a, c)
  {
    if a != [] && a[0] == b[0] == c[0] {
      LessTransitive(a[1..], b[1..], c[1..]);
    }
  }

  // ----- What the order is -----

  /** The bytes agree before `k`, and there `a` ends or has the smaller byte. */
  ghost predicate LessAt(a: Bytes, b: Bytes, k: nat) {
    k <= |a| && k < |b| && a[..k] == b[..k] && (k == |a| || a[k] < b[k])
  }

  /** `a` sorts before `b` exactly if it is a proper prefix or has the smaller byte where they first differ. */
  lemma {:induction false} LessIff(a: Bytes, b: Bytes)
    ensures Less(a, b) <==> exists k: nat :: LessAt(a, b, k)
  {
    if b == [] {
    } else if a == [] || a[0] < b[0] {
      assert LessAt(a, b, 0);
    } else {
      LessIff(a[1..], b[1..]);
      assert a == [a[0]] + a[1..] && b == [b[0]] + b[1..];
      if k: nat :| LessAt(a[1..], b[1..], k) && a[0] == b[0] {
        assert a[..k + 1] == [a[0]] + a[1..][..k] && b[..k + 1] == [b[0]] + b[1..][..k];
        assert LessAt(a, b, k + 1);
      }
      if k: nat :| LessAt(a, b, k) {
        assert k > 0 && a[0] == a[..k][0] == b[..k][0] == b[0];
        assert a[1..][..k - 1] == a[..k][1..] && b[1..][..k - 1] == b[..k][1..];
        assert LessAt(a[1..], b[1..], k - 1);
      }
    }
  }

  /** The same of texts: their first different characters decide, by code point. */
  ghost predicate PrecedesAt(s: string, t: string, k: nat) {
    k <= |s| && k < |t| && s[..k] == t[..k] && (k == |s| || s[k] < t[k])
  }

  lemma {:induction false} CodeOrder(c: char, d: char, k: nat)
    requires LessAt(EncodeChar(c), EncodeChar(d), k) && |EncodeChar(c)| == |EncodeChar(d)|
    ensures c < d
  {
    var e, f := EncodeChar(c), EncodeChar(d);
    DecodeEncode(c);
    DecodeEncode(d);
    assert forall i :: 0 <= i < k ==> e[i] == e[..k][i] == f[..k][i] == f[i];
  }

  /** A smaller code point has the smaller encoding, whatever follows. */
  lemma {:induction false} CharOrder(c: char, x: Bytes, d: char, y: Bytes)
    requires c < d
    ensures Less(EncodeChar(c) + x, EncodeChar(d) + y)
  {
    var e, f := EncodeChar(c), EncodeChar(d);
    LessIff(e + x, f + y);
    if |e| != |f| {
      assert e[0] < f[0];
      assert LessAt(e + x, f + y, 0);
    } else {
      LessTotal(e, f);
      LessIff(e, f);
      LessIff(f, e);
      if e == f {
        DecodeEncode(c);
        DecodeEncode(d);
      } else if k: nat :| LessAt(f, e, k) {
        CodeOrder(d, c, k);
      } else {
        var k: nat :| LessAt(e, f, k);
        assert (e + x)[..k] == e[..k] && (f + y)[..k] == f[..k];
        assert LessAt(e + x, f + y, k);
      }
    }
  }

  lemma {:induction false} LessBehind(e: Bytes, x: Bytes, y: Bytes)
    ensures Less(e + x, e + y) <==> Less(x, y)
  {
    if e == [] {
      assert e + x == x && e + y == y;
    } else {
      LessBehind(e[1..], x, y);
      assert (e + x)[1..] == e[1..] + x && (e + y)[1..] == e[1..] + y;
    }
  }

  /** Sorting by the bytes is sorting by code points. */
  lemma {:induction false} EncodedOrder(s: string, t: string)
    ensures Less(Encode(s), Encode(t)) <==> exists k: nat :: PrecedesAt(s, t, k)
  {
    hide EncodeChar, Less;
    if s == "" || t == "" {
      EmptyOrder(s, t);
    } else {
      var x, y := Encode(s[1..]), Encode(t[1..]);
      assert s == [s[0]] + s[1..] && t == [t[0]] + t[1..];
      if s[0] < t[0] {
        CharOrder(s[0], x, t[0], y);
        assert PrecedesAt(s, t, 0);
      } else if t[0] < s[0] {
        CharOrder(t[0], y, s[0], x);
        LessTotal(Encode(s), Encode(t));
        assert forall k: nat :: k > 0 && k <= |s| && k < |t| ==> s[..k][0] != t[..k][0];
      } else {
        LessBehind(EncodeChar(s[0]), x, y);
        EncodedOrder(s[1..], t[1..]);
        if k: nat :| PrecedesAt(s[1..], t[1..], k) {
          assert s[..k + 1] == [s[0]] + s[1..][..k] && t[..k + 1] == [t[0]] + t[1..][..k];
          assert PrecedesAt(s, t, k + 1);
        }
        if k: nat :| PrecedesAt(s, t, k) {
          assert s[1..][..k - 1] == s[..k][1..] && t[1..][..k - 1] == t[..k][1..];
          assert PrecedesAt(s[1..], t[1..], k - 1);
        }
      }
    }
  }

  lemma {:induction false} EmptyOrder(s: string, t: string)
    requires s == "" || t == ""
    ensures Less(Encode(s), Encode(t)) <==> t != "" && s == ""
    ensures t != "" && s == "" ==> PrecedesAt(s, t, 0)
  {
  }
}
