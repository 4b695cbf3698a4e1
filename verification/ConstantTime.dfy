/** UTF-8 bytes of a string (section 3 of RFC 3629), as `str::as_bytes` gives them. */
module Utf8 {
  import opened Seqs

  type Byte = x: int | 0 <= x < 256

  /** Six bits at a time; the first byte also says how many follow. */
  function CharBytes(c: char): (bytes: seq<Byte>)
    ensures 1 <= |bytes| <= 4
  {
    var x := c as int;
    var y := x / 0x40;
    var z := y / 0x40;
    if x < 0x80 then [x]
    else if x < 0x800 then [0xC0 + y, Tail(x)]
    else if x < 0x10000 then [0xE0 + z, Tail(y), Tail(x)]
    else [0xF0 + z / 0x40, Tail(z), Tail(y), Tail(x)]
  }

  /** A continuation byte with the low six bits of `x`. */
  function Tail(x: nat): Byte {
    0x80 + x % 0x40
  }

  function Bytes(s: string): seq<Byte> {
    if s == "" then [] else CharBytes(s[0]) + Bytes(s[1..])
  }

  /** `str::len`, in bytes. */
  function Len(s: string): nat {
    |Bytes(s)|
  }

  lemma CharBytesPrefixFree(c: char, d: char, s: seq<Byte>, t: seq<Byte>)
    requires CharBytes(c) + s == CharBytes(d) + t
    ensures c == d && s == t
  {
    var all := CharBytes(c) + s;
    assert all[0] == CharBytes(c)[0] == CharBytes(d)[0];
    assert |CharBytes(c)| == |CharBytes(d)|;
    assert CharBytes(c) == all[..|CharBytes(c)|] == CharBytes(d);
    assert s == all[|CharBytes(c)|..] == t;
    SameBytesSameChar(c, d);
  }

  /** A number is its low six bits and the rest. */
  lemma SixBits(x: nat, y: nat)
    requires x / 0x40 == y / 0x40 && Tail(x) == Tail(y)
    ensures x == y
  {
  }

  lemma SameBytesSameChar(c: char, d: char)
    requires CharBytes(c) == CharBytes(d)
    ensures c == d
  {
    var x, y := c as int, d as int;
    var n := |CharBytes(c)|;
    assert CharBytes(c)[0] == CharBytes(d)[0] && CharBytes(c)[n - 1] == CharBytes(d)[n - 1];
    if n >= 3 {
      assert CharBytes(c)[n - 2] == CharBytes(d)[n - 2];
      if n == 4 {
        assert CharBytes(c)[1] == CharBytes(d)[1];
        SixBits(x / 0x40 / 0x40, y / 0x40 / 0x40);
      }
      SixBits(x / 0x40, y / 0x40);
    }
    if n >= 2 {
      SixBits(x, y);
    }
  }

  lemma {:induction false} BytesInjective(a: string, b: string)
    ensures Bytes(a) == Bytes(b) <==> a == b
  {
    if Bytes(a) == Bytes(b) {
      if a != "" && b != "" {
        CharBytesPrefixFree(a[0], b[0], Bytes(a[1..]), Bytes(b[1..]));
        BytesInjective(a[1..], b[1..]);
        assert a == [a[0]] + a[1..] && b == [b[0]] + b[1..];
      }
    }
  }

  lemma {:induction false} BytesConcat(a: string, b: string)
    ensures Bytes(a + b) == Bytes(a) + Bytes(b)
  {
    if a == "" {
      assert a + b == b;
    } else {
      ConcatTail(a, b);
      BytesConcat(a[1..], b);
      ConcatAssociates(CharBytes(a[0]), Bytes(a[1..]), Bytes(b));
    }
  }
}

/** `ct_eq` (sa-token-core/src/http_basic.rs:16-25). */
module ConstantTime {
  import opened Utf8

  /** `x ^ y`, digit by binary digit. */
  function Xor(x: nat, y: nat): nat {
    if x == 0 && y == 0 then 0 else (x % 2 + y % 2) % 2 + 2 * Xor(x / 2, y / 2)
  }

  /** `x | y`, digit by binary digit. */
  function Or(x: nat, y: nat): nat {
    if x == 0 && y == 0 then 0 else (if x % 2 + y % 2 > 0 then 1 else 0) + 2 * Or(x / 2, y / 2)
  }

  lemma {:induction false} XorZero(x: nat, y: nat)
    ensures Xor(x, y) == 0 <==> x == y
  {
    if x != 0 || y != 0 {
      XorZero(x / 2, y / 2);
    }
  }

  lemma {:induction false} OrZero(x: nat, y: nat)
    ensures Or(x, y) == 0 <==> x == 0 && y == 0
  {
    if x != 0 || y != 0 {
      OrZero(x / 2, y / 2);
    }
  }

  /** The xor/or loop decides equality of the two byte strings. */
  method CtEq(a: seq<Byte>, b: seq<Byte>) returns (same: bool)
    ensures same <==> a == b
  {
    if |a| != |b| {
      return false;
    }
    var diff := 0;
    for i := 0 to |a|
      invariant 0 <= diff
      invariant diff == 0 <==> a[..i] == b[..i]
    {
      assert a[..i + 1] == a[..i] + [a[i]] && b[..i + 1] == b[..i] + [b[i]];
      XorZero(a[i], b[i]);
      OrZero(diff, Xor(a[i], b[i]));
      diff := Or(diff, Xor(a[i], b[i]));
    }
    assert a[..|a|] == a && b[..|a|] == b;
    same := diff == 0;
  }

  /** `ct_eq(a.as_bytes(), b.as_bytes())` */
  method SameText(a: string, b: string) returns (same: bool)
    ensures same <==> a == b
  {
    BytesInjective(a, b);
    same := CtEq(Bytes(a), Bytes(b));
  }
}
