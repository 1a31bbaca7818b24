/**
 * Bytes, fixed-width little-endian integers and NUL-terminated strings:
 * the primitive reads and writes every section of the CauseNet file is built from.
 * All multi-byte integers of the file are little-endian (the packed structs are
 * written in the native byte order of the x86-64 machines the files come from).
 */
module LittleEndian {
  import opened Wrappers

  type Byte = b: int | 0 <= b < 256
  type Bytes = seq<Byte>

  const U32_LIMIT: nat := 0x1_0000_0000
  const U64_LIMIT: nat := 0x1_0000_0000_0000_0000

  function Pow256(n: nat): (r: nat)
    ensures r > 0
  {
    if n == 0 then 1 else 256 * Pow256(n - 1)
  }

  /** The n low-order bytes of x, least significant first; higher bytes are cut off (a truncating cast). */
  function EncodeLE(x: nat, n: nat): (r: Bytes)
    ensures |r| == n
  {
    if n == 0 then [] else [x % 256] + EncodeLE(x / 256, n - 1)
  }

  function DecodeLE(bs: Bytes): (r: nat)
    ensures r < Pow256(|bs|)
  {
    if bs == [] then 0 else bs[0] + 256 * DecodeLE(bs[1..])
  }

  lemma {:induction false} MulMono(m: nat, a: nat, b: nat)
    requires a <= b
    ensures m * a <= m * b
  {
    assert m * b - m * a == m * (b - a);
  }

  lemma {:induction false} DivMod(x: nat, q: nat, r: nat, m: nat)
    requires 0 <= r < m && x == m * q + r
    ensures x / m == q && x % m == r
  {
    var q', r' := x / m, x % m;
    assert x == m * q' + r';
    if q' > q {
      MulMono(m, q + 1, q');
      assert false;
    } else if q' < q {
      MulMono(m, q' + 1, q);
      assert false;
    }
  }

  lemma {:induction false} ModOfProduct(x: nat, b: nat)
    requires b > 0
    ensures x % (256 * b) == x % 256 + 256 * ((x / 256) % b)
  {
    var q := x / 256;
    var r := x % 256;
    var q2 := q / b;
    var r2 := q % b;
    assert x == 256 * q + r;
    assert q == b * q2 + r2;
    assert x == (256 * b) * q2 + (256 * r2 + r) by {
      calc {
        x;
        256 * q + r;
        256 * (b * q2 + r2) + r;
        (256 * b) * q2 + (256 * r2 + r);
      }
    }
    assert 256 * r2 + r < 256 * b by {
      assert r2 <= b - 1;
      assert 256 * r2 <= 256 * (b - 1);
    }
    DivMod(x, q2, 256 * r2 + r, 256 * b);
  }

  /** Decoding what was encoded gives the value modulo the width: the round trip of a truncating write. */
  lemma {:induction false} DecodeEncode(x: nat, n: nat)
    ensures DecodeLE(EncodeLE(x, n)) == x % Pow256(n)
  {
    if n > 0 {
      var e := EncodeLE(x, n);
      assert e[1..] == EncodeLE(x / 256, n - 1);
      DecodeEncode(x / 256, n - 1);
      ModOfProduct(x, Pow256(n - 1));
    }
  }

  /** Encoding what was decoded gives back the same bytes. */
  lemma {:induction false} EncodeDecode(bs: Bytes)
    ensures EncodeLE(DecodeLE(bs), |bs|) == bs
  {
    if bs != [] {
      var x := DecodeLE(bs);
      DivMod(x, DecodeLE(bs[1..]), bs[0], 256);
      EncodeDecode(bs[1..]);
    }
  }

  lemma {:induction false} Pow256Widths()
    ensures Pow256(4) == U32_LIMIT && Pow256(8) == U64_LIMIT
  {
  }

  function EncodeU32(x: nat): Bytes { EncodeLE(x, 4) }
  function EncodeU64(x: nat): Bytes { EncodeLE(x, 8) }

  /** `part` sits in `file` at byte `pos`. */
  predicate Contains(file: Bytes, pos: nat, part: Bytes)
  {
    pos + |part| <= |file| && forall i :: 0 <= i < |part| ==> file[pos + i] == part[i]
  }

  /** A contained part is the slice of the file at its position. */
  lemma {:induction false} ContainsSlice(file: Bytes, pos: nat, part: Bytes)
    requires Contains(file, pos, part)
    ensures file[pos..pos + |part|] == part
  {
    assert forall i :: 0 <= i < |part| ==> file[pos..pos + |part|][i] == part[i];
  }

  lemma {:induction false} ContainsWhole(a: Bytes, b: Bytes)
    ensures Contains(a + b, 0, a) && Contains(a + b, |a|, b)
  {
    assert (a + b)[0..|a|] == a;
    assert (a + b)[|a|..|a| + |b|] == b;
  }

  lemma {:induction false} ContainsTrans(file: Bytes, pos: nat, mid: Bytes, pos2: nat, part: Bytes)
    requires Contains(file, pos, mid) && Contains(mid, pos2, part)
    ensures Contains(file, pos + pos2, part)
  {
    forall i | 0 <= i < |part|
      ensures file[pos + pos2 + i] == part[i]
    {
      assert mid[pos2 + i] == part[i];
      assert file[pos + (pos2 + i)] == mid[pos2 + i];
    }
    assert file[pos + pos2..pos + pos2 + |part|] == part;
  }

  lemma {:induction false} ContainsSplit(file: Bytes, pos: nat, x: Bytes, y: Bytes)
    requires Contains(file, pos, x + y)
    ensures Contains(file, pos, x) && Contains(file, pos + |x|, y)
  {
    ContainsWhole(x, y);
    ContainsTrans(file, pos, x + y, 0, x);
    ContainsTrans(file, pos, x + y, |x|, y);
  }

  /** ContainsSplit, with the second part's position spelt as the caller spells it. */
  lemma {:induction false} ContainsSplitAt(file: Bytes, pos: nat, x: Bytes, y: Bytes, at: nat)
    requires Contains(file, pos, x + y) && at == pos + |x|
    ensures Contains(file, pos, x) && Contains(file, at, y)
  {
    ContainsSplit(file, pos, x, y);
  }

  /** ContainsTrans, with the part's position spelt as the caller spells it. */
  lemma {:induction false} ContainsTransAt(file: Bytes, pos: nat, mid: Bytes, pos2: nat, part: Bytes, at: nat)
    requires Contains(file, pos, mid) && Contains(mid, pos2, part) && at == pos + pos2
    ensures Contains(file, at, part)
  {
    ContainsTrans(file, pos, mid, pos2, part);
  }

  /** The n-byte little-endian value stored at `pos`, read in place. */
  function DecodeAt(file: Bytes, pos: nat, n: nat): (r: nat)
    requires pos + n <= |file|
    ensures r < Pow256(n)
    decreases |file| - pos
  {
    if n == 0 then 0 else file[pos] + 256 * DecodeAt(file, pos + 1, n - 1)
  }

  /** Reading in place agrees with decoding the slice. */
  lemma {:induction false} DecodeAtSlice(file: Bytes, pos: nat, n: nat)
    requires pos + n <= |file|
    ensures DecodeAt(file, pos, n) == DecodeLE(file[pos..pos + n])
    decreases |file| - pos
  {
    if n > 0 {
      DecodeAtSlice(file, pos + 1, n - 1);
      assert file[pos..pos + n][1..] == file[pos + 1..pos + 1 + (n - 1)];
    }
  }

  /** A part of `a` is still there, at the same place, once `b` is appended. */
  lemma {:induction false} ContainsAppend(a: Bytes, pos: nat, part: Bytes, b: Bytes)
    requires Contains(a, pos, part)
    ensures Contains(a + b, pos, part)
  {
    ContainsWhole(a, b);
    ContainsTrans(a + b, 0, a, pos, part);
  }

  /** A part of `b` sits |a| bytes further on in `a + b`. */
  lemma {:induction false} ContainsPrepend(a: Bytes, b: Bytes, pos: nat, part: Bytes)
    requires Contains(b, pos, part)
    ensures Contains(a + b, |a| + pos, part)
  {
    ContainsWhole(a, b);
    ContainsTrans(a + b, |a|, b, pos, part);
  }

  function U32At(file: Bytes, pos: nat): (r: nat)
    requires pos + 4 <= |file|
    ensures r < U32_LIMIT
  {
    Pow256Widths();
    DecodeAt(file, pos, 4)
  }

  function U64At(file: Bytes, pos: nat): (r: nat)
    requires pos + 8 <= |file|
    ensures r < U64_LIMIT
  {
    Pow256Widths();
    DecodeAt(file, pos, 8)
  }

  /** A u32 written at `pos` reads back as its value modulo 2^32. */
  lemma {:induction false} ReadU32(file: Bytes, pos: nat, x: nat)
    requires Contains(file, pos, EncodeU32(x))
    ensures U32At(file, pos) == x % U32_LIMIT
  {
    ContainsSlice(file, pos, EncodeU32(x));
    DecodeAtSlice(file, pos, 4);
    DecodeEncode(x, 4);
    Pow256Widths();
  }

  /** A u64 written at `pos` reads back as its value modulo 2^64. */
  lemma {:induction false} ReadU64(file: Bytes, pos: nat, x: nat)
    requires Contains(file, pos, EncodeU64(x))
    ensures U64At(file, pos) == x % U64_LIMIT
  {
    ContainsSlice(file, pos, EncodeU64(x));
    DecodeAtSlice(file, pos, 8);
    DecodeEncode(x, 8);
    Pow256Widths();
  }

  lemma {:induction false} ReadFittingU32(file: Bytes, pos: nat, x: nat)
    requires x < U32_LIMIT && Contains(file, pos, EncodeU32(x))
    ensures U32At(file, pos) == x
  {
    ReadU32(file, pos, x);
  }

  lemma {:induction false} ReadFittingU64(file: Bytes, pos: nat, x: nat)
    requires x < U64_LIMIT && Contains(file, pos, EncodeU64(x))
    ensures U64At(file, pos) == x
  {
    ReadU64(file, pos, x);
  }

  predicate NoNul(s: Bytes)
  {
    forall i :: 0 <= i < |s| ==> s[i] != 0
  }

  /**
   * std::string(const char*) of a string that may hold NUL bytes: the bytes before
   * the first NUL, all of them when there is none.
   */
  function CString(s: Bytes): (r: Bytes)
    ensures NoNul(r) && r <= s
    ensures |r| < |s| ==> s[|r|] == 0
    ensures NoNul(s) ==> r == s
    decreases |s|
  {
    if s == [] || s[0] == 0 then [] else [s[0]] + CString(s[1..])
  }

  /**
   * The bytes from `pos` up to the first NUL, as `std::string(const char*)` reads them;
   * None when the file ends before a NUL (the C++ code would read past the mapping).
   */
  function CStringAt(file: Bytes, pos: nat): (r: Option<Bytes>)
    ensures r.Some? ==> pos + |r.value| < |file|
    decreases |file| - pos
  {
    if pos >= |file| then None
    else if file[pos] == 0 then Some([])
    else match CStringAt(file, pos + 1)
      case None => None
      case Some(rest) => Some([file[pos]] + rest)
  }

  /** What CStringAt yields is NUL-free and sits in the file followed by its terminator. */
  lemma {:induction false} CStringAtTerminated(file: Bytes, pos: nat)
    requires CStringAt(file, pos).Some?
    ensures NoNul(CStringAt(file, pos).value) && Contains(file, pos, CStringAt(file, pos).value + [0])
    decreases |file| - pos
  {
    var s := CStringAt(file, pos).value;
    if file[pos] == 0 {
      assert s + [0] == [0];
    } else {
      CStringAtTerminated(file, pos + 1);
      var rest := CStringAt(file, pos + 1).value;
      assert s == [file[pos]] + rest;
      assert s + [0] == [file[pos]] + (rest + [0]);
      assert file[pos..pos + |s| + 1] == [file[pos]] + file[pos + 1..pos + 1 + |rest| + 1];
    }
  }

  /** A NUL-free string written with its terminator reads back unchanged. */
  lemma {:induction false} ReadCString(file: Bytes, pos: nat, s: Bytes)
    requires NoNul(s) && Contains(file, pos, s + [0])
    ensures CStringAt(file, pos) == Some(s)
    decreases |s|
  {
    if s == [] {
      assert file[pos] == (s + [0])[0];
    } else {
      assert file[pos + 0] == (s + [0])[0];
      assert [s[0]] + (s[1..] + [0]) == s + [0];
      ContainsSplit(file, pos, [s[0]], s[1..] + [0]);
      assert [s[0]] + (s[1..] + [0]) == s + [0];
      ReadCString(file, pos + 1, s[1..]);
      assert [s[0]] + s[1..] == s;
    }
  }
}
