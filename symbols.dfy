/**
 * The per-value encoders of SourceCode/BinaryFrame.py: each turns one observation
 * into a short symbol over '0'/'1' (a sign bit followed by magnitude bits, or the
 * two-character "01" for zero).
 */
module Symbols {
  import opened Strings
  import opened Wrappers

  /** What flip_bits does to one character: '0' and '1' swap, the placeholder '2' becomes '0'. */
  function FlipChar(c: char): char {
    if c == '1' || c == '2' then '0' else if c == '0' then '1' else c
  }

  /** flip_bits: 1 -> 2, then 0 -> 1, then 2 -> 0, by three whole-string replacements. */
  function FlipBits(s: string): (r: string)
    ensures |r| == |s| && '2' !in r
    ensures forall i :: 0 <= i < |s| ==> r[i] == FlipChar(s[i])
  {
    Replace(Replace(Replace(s, '1', '2'), '0', '1'), '2', '0')
  }

  /** On a string without the placeholder '2', flipping twice gives the string back. */
  lemma FlipBitsInvolutive(s: string)
    requires '2' !in s
    ensures FlipBits(FlipBits(s)) == s
  {
    var t := FlipBits(FlipBits(s));
    assert |t| == |s|;
    forall i | 0 <= i < |s| ensures t[i] == s[i] {
      assert s[i] != '2';
    }
  }

  /** Flipping keeps a bit string a bit string. */
  lemma FlipBitsBinary(s: string)
    requires IsBinary(s)
    ensures IsBinary(FlipBits(s))
  {
  }

  /** Flipping works character by character, so it distributes over concatenation. */
  lemma FlipBitsAppend(a: string, b: string)
    ensures FlipBits(a + b) == FlipBits(a) + FlipBits(b)
  {
    var l, r := FlipBits(a + b), FlipBits(a) + FlipBits(b);
    assert |l| == |r|;
    forall i | 0 <= i < |l| ensures l[i] == r[i] {
      if i < |a| { assert (a + b)[i] == a[i]; } else { assert (a + b)[i] == b[i - |a|]; }
    }
  }

  /** discretize: '1' for a positive value, '0' for a negative one, "01" for zero. */
  function Discretize(fp: real): (r: string)
    ensures r == "1" <==> fp > 0.0
    ensures r == "0" <==> fp < 0.0
    ensures r == "01" <==> fp == 0.0
  {
    if fp > 0.0 then "1" else if fp < 0.0 then "0" else "01"
  }

  /** A value and its negation discretize to complementary bits, except at zero. */
  lemma {:induction false} DiscretizeSymmetric(fp: real)
    requires fp != 0.0
    ensures Discretize(-fp) == FlipBits(Discretize(fp))
  {
    var d := Discretize(fp);
    assert |FlipBits(d)| == 1 && FlipBits(d)[0] == (if d[0] == '1' then '0' else '1');
  }

  /** The digits of Python's bin(n) after the "0b" prefix: binary, no leading zeros. */
  function Binary(n: nat): (r: string)
    requires n > 0
    ensures |r| >= 1 && r[0] == '1' && IsBinary(r)
    decreases n
  {
    if n == 1 then "1" else Binary(n / 2) + [if n % 2 == 0 then '0' else '1']
  }

  /** The number a string of binary digits denotes (most significant first). */
  function BinaryValue(s: string): nat {
    if s == [] then 0 else 2 * BinaryValue(s[..|s| - 1]) + (if s[|s| - 1] == '1' then 1 else 0)
  }

  /** Reading back the digits of bin(n) gives n. */
  lemma {:induction false} BinaryRoundTrip(n: nat)
    requires n > 0
    ensures BinaryValue(Binary(n)) == n
    decreases n
  {
    if n > 1 {
      var d: char := if n % 2 == 0 then '0' else '1';
      var b := Binary(n / 2) + [d];
      assert b[..|b| - 1] == Binary(n / 2);
      BinaryRoundTrip(n / 2);
    }
  }

  /** Every bit string that starts with '1' is the output of bin for exactly one positive number. */
  lemma {:induction false} BinaryOfValue(s: string)
    requires IsBinary(s) && |s| >= 1 && s[0] == '1'
    ensures BinaryValue(s) > 0 && Binary(BinaryValue(s)) == s
    decreases |s|
  {
    if |s| == 1 {
      assert s == "1";
      assert BinaryValue(s) == 2 * BinaryValue([]) + 1;
    } else {
      var p := s[..|s| - 1];
      var last := s[|s| - 1];
      assert IsBinary(p) && p[0] == '1' by {
        forall i | 0 <= i < |p| ensures p[i] == '0' || p[i] == '1' { assert p[i] == s[i]; }
      }
      BinaryOfValue(p);
      var q := BinaryValue(p);
      var d := if last == '1' then 1 else 0;
      var v := BinaryValue(s);
      assert v == 2 * q + d;
      assert v / 2 == q && v % 2 == d && v > 1;
      assert [if v % 2 == 0 then '0' else '1'] == [last];
      assert Binary(v) == Binary(q) + [last];
      assert s == p + [last];
    }
  }

  /** int(fp * 100) in Python: the product truncated toward zero. */
  function BasisPoints(fp: real): (bp: int)
    ensures fp >= 0.0 ==> 0 <= bp && bp as real <= fp * 100.0 < bp as real + 1.0
    ensures fp < 0.0 ==> bp <= 0 && bp as real - 1.0 < fp * 100.0 <= bp as real
  {
    var x := fp * 100.0;
    if x >= 0.0 then x.Floor else -((-x).Floor)
  }

  /**
   * convert_basis_point on an integer: '1' and the binary digits of a positive
   * value; '0' and the complemented digits of |v| for a negative value; "01" for zero.
   */
  function ConvertBasisPoint(v: int): (r: string)
    ensures IsBinary(r) && |r| >= 2
    ensures r[0] == (if v > 0 then '1' else '0')
  {
    if v > 0 then "1" + Binary(v)
    else if v < 0 then "0" + FlipBits(Binary(-v))
    else "01"
  }

  /** Inverse of ConvertBasisPoint: the sign bit, then the magnitude (un-flipped for negatives). */
  function DecodeBasisPoint(s: string): (r: Option<int>)
    ensures r.Some? ==> |s| >= 2
  {
    if |s| < 2 then None
    else if s == "01" then Some(0)
    else if s[0] == '1' && s[1] == '1' then Some(BinaryValue(s[1..]))
    else if s[0] == '0' && s[1] == '0' then Some(-(BinaryValue(FlipBits(s[1..])) as int))
    else None
  }

  /** Decoding an encoded integer recovers it. */
  lemma {:induction false} BasisPointRoundTrip(v: int)
    ensures DecodeBasisPoint(ConvertBasisPoint(v)) == Some(v)
  {
    if v > 0 {
      var b := Binary(v);
      var r := "1" + b;
      assert ConvertBasisPoint(v) == r;
      assert r[1..] == b && r[0] == '1' && r[1] == '1';
      assert DecodeBasisPoint(r) == Some(BinaryValue(b) as int);
      BinaryRoundTrip(v);
    } else if v < 0 {
      var n := -v;
      var b := Binary(n);
      var f := FlipBits(b);
      var r := "0" + f;
      assert ConvertBasisPoint(v) == r;
      assert r[1..] == f && r[0] == '0' && r[1] == '0';
      assert DecodeBasisPoint(r) == Some(-(BinaryValue(FlipBits(f)) as int));
      assert FlipBits(f) == b by {
        FlipBitsInvolutive(b);
      }
      BinaryRoundTrip(n);
    } else {
      assert ConvertBasisPoint(v) == "01";
    }
  }

  /** Distinct integers get distinct codes; in particular "01" comes only from zero. */
  lemma BasisPointInjective(a: int, b: int)
    requires ConvertBasisPoint(a) == ConvertBasisPoint(b)
    ensures a == b
  {
    BasisPointRoundTrip(a);
    BasisPointRoundTrip(b);
  }

  /** Every well-formed code is the code of the integer it decodes to. */
  lemma {:induction false} BasisPointDecodeEncode(s: string)
    requires IsBinary(s)
    requires DecodeBasisPoint(s).Some?
    ensures ConvertBasisPoint(DecodeBasisPoint(s).value) == s
  {
    if s != "01" {
      var m := s[1..];
      assert IsBinary(m) by {
        forall i | 0 <= i < |m| ensures m[i] == '0' || m[i] == '1' { assert m[i] == s[i + 1]; }
      }
      assert s == [s[0]] + m;
      if s[0] == '1' {
        PositiveCode(s);
      } else {
        NegativeCode(s);
      }
    }
  }

  lemma PositiveCode(s: string)
    requires |s| >= 2 && IsBinary(s[1..]) && s[0] == '1' && s[1] == '1'
    ensures DecodeBasisPoint(s) == Some(BinaryValue(s[1..]) as int)
    ensures ConvertBasisPoint(BinaryValue(s[1..])) == s
  {
    var m := s[1..];
    assert m[0] == '1';
    BinaryOfValue(m);
    assert s == "1" + m;
  }

  lemma NegativeCode(s: string)
    requires |s| >= 2 && IsBinary(s[1..]) && s[0] == '0' && s[1] == '0'
    ensures DecodeBasisPoint(s) == Some(-(BinaryValue(FlipBits(s[1..])) as int))
    ensures ConvertBasisPoint(-(BinaryValue(FlipBits(s[1..])) as int)) == s
  {
    assert s[1] != '1';
    assert s != "01";
    var m := s[1..];
    var f := FlipBits(m);
    assert m[0] == '0';
    FlipBitsBinary(m);
    BinaryOfValue(f);
    var n := BinaryValue(f);
    assert Binary(n) == f;
    FlipBitsInvolutive(m);
    assert FlipBits(f) == m;
    var v: int := -(n as int);
    assert v < 0 && -v == n;
    assert ConvertBasisPoint(v) == "0" + FlipBits(Binary(n));
    assert s == "0" + m;
  }

  /** A nonzero integer and its negation get complementary codes. */
  lemma {:induction false} BasisPointSymmetric(v: int)
    requires v != 0
    ensures ConvertBasisPoint(-v) == FlipBits(ConvertBasisPoint(v))
  {
    var n := if v > 0 then v else -v;
    var b := Binary(n);
    var plus, minus := "1" + b, "0" + FlipBits(b);
    assert ConvertBasisPoint(n) == plus && ConvertBasisPoint(-n) == minus;
    assert FlipBits(plus) == minus by {
      FlipBitsAppend("1", b);
      assert FlipBits("1") == "0";
    }
    assert FlipBits(minus) == plus by {
      FlipBitsAppend("0", FlipBits(b));
      assert FlipBits("0") == "1";
      FlipBitsInvolutive(b);
    }
  }

  /** Python's s[1:]: everything after the first character (empty for an empty string). */
  function Drop1(s: string): (r: string)
    ensures |r| == if s == [] then 0 else |s| - 1
  {
    if s == [] then [] else s[1..]
  }

  /**
   * convert_floating_point: `pattern` is the IEEE 754 bit pattern of `fp`. Its own
   * sign bit is dropped, a fresh sign bit is prepended, and the remaining bits are
   * complemented when the value is negative; zero gives "01".
   */
  function ConvertFloatingPoint(fp: real, pattern: string): (r: string)
    ensures fp != 0.0 ==> |r| == if pattern == [] then 1 else |pattern|
    ensures fp != 0.0 ==> r[0] == (if fp > 0.0 then '1' else '0')
    ensures fp == 0.0 ==> r == "01"
    ensures IsBinary(pattern) ==> IsBinary(r)
  {
    var bits := Drop1(pattern);
    if fp > 0.0 then "1" + bits
    else if fp < 0.0 then "0" + FlipBits(bits)
    else "01"
  }

  /** The non-sign bits of the pattern, read back from a code by undoing the complement. */
  function FloatMagnitude(code: string): (bits: string)
    requires |code| >= 1
    ensures |bits| == |code| - 1
  {
    if code[0] == '1' then code[1..] else FlipBits(code[1..])
  }

  /** For a nonzero value, the code's first bit is the sign and the rest gives back the pattern's magnitude bits. */
  lemma {:induction false} FloatingPointRoundTrip(fp: real, pattern: string)
    requires fp != 0.0 && |pattern| >= 1 && '2' !in pattern
    ensures FloatMagnitude(ConvertFloatingPoint(fp, pattern)) == pattern[1..]
  {
    var r := ConvertFloatingPoint(fp, pattern);
    if fp > 0.0 {
      assert r[1..] == pattern[1..];
    } else {
      assert r[1..] == FlipBits(pattern[1..]);
      assert '2' !in pattern[1..] by {
        forall i | 0 <= i < |pattern[1..]| ensures pattern[1..][i] != '2' { assert pattern[1..][i] == pattern[i + 1]; }
      }
      FlipBitsInvolutive(pattern[1..]);
    }
  }

  /**
   * x and -x have IEEE patterns that differ only in the sign bit; after the
   * transform their codes are complements of each other, bit for bit.
   */
  lemma {:induction false} FloatingPointSymmetric(fp: real, pattern: string, negated: string)
    requires fp != 0.0 && |pattern| >= 1 && |negated| >= 1
    requires pattern[1..] == negated[1..] && '2' !in pattern
    ensures ConvertFloatingPoint(-fp, negated) == FlipBits(ConvertFloatingPoint(fp, pattern))
  {
    var m := pattern[1..];
    assert Drop1(pattern) == m && Drop1(negated) == m;
    var plus, minus := "1" + m, "0" + FlipBits(m);
    var x := if fp > 0.0 then fp else -fp;
    assert ConvertFloatingPoint(x, pattern) == plus && ConvertFloatingPoint(-x, pattern) == minus;
    assert ConvertFloatingPoint(x, negated) == plus && ConvertFloatingPoint(-x, negated) == minus;
    assert FlipBits(plus) == minus by {
      FlipBitsAppend("1", m);
      assert FlipBits("1") == "0";
    }
    assert FlipBits(minus) == plus by {
      assert '2' !in m by {
        forall i | 0 <= i < |m| ensures m[i] != '2' { assert m[i] == pattern[i + 1]; }
      }
      FlipBitsAppend("0", FlipBits(m));
      assert FlipBits("0") == "1";
      FlipBitsInvolutive(m);
    }
  }
}
