/**
 * The WARC header helpers of include/warc.hpp: whitespace tests, trim and split
 * on string views, and the part of operator>> that reads one record's header
 * lines into a map and sizes its content by the Content-Length header.
 *
 * Whitespace is the classic-locale set: space, tab, line feed, vertical tab,
 * form feed and carriage return.
 */
module Warc {

  type String = seq<char>

  predicate IsSpace(c: char)
  {
    c == ' ' || c == '\t' || c == '\n' || c == '\U{0B}' || c == '\U{0C}' || c == '\r'
  }

  /** onlyWhitespace: std::all_of(isspace); true for the empty string. */
  function OnlyWhitespace(s: String): (r: bool)
    ensures r <==> forall i :: 0 <= i < |s| ==> IsSpace(s[i])
    decreases |s|
  {
    s == [] || (IsSpace(s[0]) && OnlyWhitespace(s[1..]))
  }

  // ---------------------------------------------------------------------------
  // trim

  /** std::find_if from the front: the first non-whitespace position, |s| if none. */
  function FirstNonSpace(s: String): (b: nat)
    ensures b <= |s|
    ensures forall i :: 0 <= i < b ==> IsSpace(s[i])
    ensures b < |s| ==> !IsSpace(s[b])
    decreases |s|
  {
    if s == [] || !IsSpace(s[0]) then 0 else 1 + FirstNonSpace(s[1..])
  }

  /**
   * std::find_if over the reverse iterators, then base(): one past the last
   * non-whitespace position, 0 if none.
   */
  function EndNonSpace(s: String): (e: nat)
    ensures e <= |s|
    ensures forall i :: e <= i < |s| ==> IsSpace(s[i])
    ensures e > 0 ==> !IsSpace(s[e - 1])
    decreases |s|
  {
    if s == [] || !IsSpace(s[|s| - 1]) then |s| else EndNonSpace(s[..|s| - 1])
  }

  /** The bounds trim hands to string_view, as written. */
  function TrimRange(s: String): (int, int)
  {
    (FirstNonSpace(s), EndNonSpace(s))
  }

  /** The bounds are in order exactly when s is empty or holds a non-whitespace character. */
  lemma {:induction false} TrimRangeOrdered(s: String)
    ensures TrimRange(s).0 <= TrimRange(s).1 <==> (s == [] || !OnlyWhitespace(s))
  {
    var b, e := FirstNonSpace(s), EndNonSpace(s);
    if s != [] && !OnlyWhitespace(s) {
      var k :| 0 <= k < |s| && !IsSpace(s[k]);
      assert b <= k < e;
    }
  }

  /** As written, trim(" ") asks for the view from position 1 to position 0. */
  lemma AsWrittenTrimReversed()
    ensures TrimRange(" ") == (1, 0)
  {
    var s: String := " ";
    assert s[1..] == [] && s[..0] == [];
  }

  /**
   * trim with the reversed range of an all-whitespace string read as the empty
   * view. The result is a piece of s with only whitespace cut from either side,
   * and it neither starts nor ends with whitespace.
   */
  function Trim(s: String): (r: String)
    ensures |r| <= |s|
    ensures r == [] || (!IsSpace(r[0]) && !IsSpace(r[|r| - 1]))
    ensures r == [] <==> OnlyWhitespace(s)
  {
    TrimRangeOrdered(s);
    var b, e := FirstNonSpace(s), EndNonSpace(s);
    if b <= e then
      assert s != [] ==> (b < |s| && e > 0);
      s[b..e]
    else []
  }

  /** What trim cuts off is whitespace, at the front and at the back. */
  lemma {:induction false} TrimCuts(s: String)
    ensures exists i :: 0 <= i && i + |Trim(s)| <= |s| && s[i..i + |Trim(s)|] == Trim(s) &&
                        OnlyWhitespace(s[..i]) && OnlyWhitespace(s[i + |Trim(s)|..])
  {
    var b, e := FirstNonSpace(s), EndNonSpace(s);
    TrimRangeOrdered(s);
    if b <= e {
      assert OnlyWhitespace(s[..b]) && OnlyWhitespace(s[e..]);
    } else {
      assert OnlyWhitespace(s[..0]) && OnlyWhitespace(s[0..]);
    }
  }

  /** A string that neither starts nor ends with whitespace is its own trim. */
  lemma {:induction false} TrimTrimmed(s: String)
    requires s == [] || (!IsSpace(s[0]) && !IsSpace(s[|s| - 1]))
    ensures Trim(s) == s
  {
    if s != [] {
      assert FirstNonSpace(s) == 0 && EndNonSpace(s) == |s|;
      assert s[0..|s|] == s;
    }
  }

  lemma {:induction false} TrimIdempotent(s: String)
    ensures Trim(Trim(s)) == Trim(s)
  {
    TrimTrimmed(Trim(s));
  }

  // ---------------------------------------------------------------------------
  // split

  /** std::string::find: the first position of d. */
  function Find(s: String, d: char): (i: nat)
    requires d in s
    ensures i < |s| && s[i] == d
    ensures d !in s[..i]
    decreases |s|
  {
    if s[0] == d then 0
    else
      var i := 1 + Find(s[1..], d);
      assert s[..i] == [s[0]] + s[1..][..i - 1];
      i
  }

  /** The first d after a prefix free of d. */
  lemma {:induction false} FindAfter(prefix: String, rest: String, d: char)
    requires d !in prefix && rest != [] && rest[0] == d
    ensures d in prefix + rest && Find(prefix + rest, d) == |prefix|
    decreases |prefix|
  {
    var s := prefix + rest;
    assert s[|prefix|] == d;
    if prefix != [] {
      assert s[0] == prefix[0];
      assert s[1..] == prefix[1..] + rest;
      FindAfter(prefix[1..], rest, d);
    }
  }

  /** split(s, d): the trimmed text before the first d and the trimmed text after it. */
  function Split(s: String, d: char): (kv: (String, String))
    requires d in s
    ensures d !in kv.0
  {
    var i := Find(s, d);
    KeepsOut(s[..i], d);
    (Trim(s[..i]), Trim(s[i + 1..]))
  }

  /** Trimming adds no character. */
  lemma {:induction false} KeepsOut(s: String, d: char)
    requires d !in s
    ensures d !in Trim(s)
  {
    var b, e := FirstNonSpace(s), EndNonSpace(s);
    if b <= e {
      var t := s[b..e];
      assert forall j :: 0 <= j < |t| ==> t[j] == s[b + j];
    }
  }

  /** A key without d and a value, both trimmed, come back out of split. */
  lemma {:induction false} SplitJoin(key: String, value: String, d: char)
    requires d !in key && Trim(key) == key && Trim(value) == value
    ensures d in key + [d] + value
    ensures Split(key + [d] + value, d) == (key, value)
  {
    var s := key + [d] + value;
    assert s[|key|] == d;
    FindAfter(key, [d] + value, d);
    var i := Find(s, d);
    assert s[..i] == key;
    assert s[i + 1..] == value;
  }

  // ---------------------------------------------------------------------------
  // Content-Length

  const ULLONG_MAX: nat := 0xFFFF_FFFF_FFFF_FFFF

  predicate IsDigit(c: char)
  {
    '0' <= c <= '9'
  }

  /** The number of leading decimal digits. */
  function DigitRun(s: String): (n: nat)
    ensures n <= |s|
    ensures forall i :: 0 <= i < n ==> IsDigit(s[i])
    ensures n < |s| ==> !IsDigit(s[n])
    decreases |s|
  {
    if s == [] || !IsDigit(s[0]) then 0 else 1 + DigitRun(s[1..])
  }

  lemma {:induction false} DigitRunAll(s: String)
    requires forall i :: 0 <= i < |s| ==> IsDigit(s[i])
    ensures DigitRun(s) == |s|
    decreases |s|
  {
    if s != [] {
      DigitRunAll(s[1..]);
    }
  }

  /** The value of a run of decimal digits, most significant first. */
  function DigitsValue(ds: String): nat
    requires forall i :: 0 <= i < |ds| ==> IsDigit(ds[i])
    decreases |ds|
  {
    if ds == [] then 0
    else
      var c := ds[|ds| - 1];
      assert IsDigit(c);
      DigitsValue(ds[..|ds| - 1]) * 10 + (c as int - '0' as int)
  }

  /**
   * std::strtoull(s, nullptr, 10): leading whitespace, an optional sign and the
   * longest run of digits; 0 without digits, ULLONG_MAX when the magnitude does
   * not fit, and a negated magnitude taken modulo 2^64.
   */
  function ParseULL(s: String): (v: nat)
    ensures v <= ULLONG_MAX
  {
    var t := s[FirstNonSpace(s)..];
    var negative := t != [] && t[0] == '-';
    var u := if t != [] && (t[0] == '-' || t[0] == '+') then t[1..] else t;
    var magnitude := DigitsValue(u[..DigitRun(u)]);
    if magnitude > ULLONG_MAX then ULLONG_MAX
    else if negative && magnitude > 0 then ULLONG_MAX + 1 - magnitude
    else magnitude
  }

  /** The decimal digits of n, no sign and no leading zero: the Content-Length values the ParseDecimal round trip starts from. */
  function Decimal(n: nat): (ds: String)
    ensures ds != [] && forall i :: 0 <= i < |ds| ==> IsDigit(ds[i])
  {
    var digit := ('0' as int + n % 10) as char;
    if n < 10 then [digit] else Decimal(n / 10) + [digit]
  }

  lemma {:induction false} DecimalValue(n: nat)
    ensures DigitsValue(Decimal(n)) == n
  {
    var ds := Decimal(n);
    if n >= 10 {
      assert ds[..|ds| - 1] == Decimal(n / 10);
      DecimalValue(n / 10);
    }
  }

  /** A length written in decimal reads back as itself. */
  lemma {:induction false} ParseDecimal(n: nat)
    requires n <= ULLONG_MAX
    ensures ParseULL(Decimal(n)) == n
  {
    var ds := Decimal(n);
    assert FirstNonSpace(ds) == 0 by {
      assert !IsSpace(ds[0]);
    }
    assert ds[0..] == ds;
    DigitRunAll(ds);
    assert ds[..|ds|] == ds;
    DecimalValue(n);
  }

  /** std::string::resize: cut to n, or padded with NUL characters up to n. */
  function Resize(s: String, n: nat): (r: String)
    ensures |r| == n
    ensures forall i :: 0 <= i < n ==> r[i] == if i < |s| then s[i] else '\0'
  {
    if n <= |s| then s[..n] else s + seq(n - |s|, _ => '\0')
  }

  // ---------------------------------------------------------------------------
  // The header block of operator>>

  /** The position of the first whitespace-only line: where the header loop stops. */
  function HeaderEnd(lines: seq<String>): (n: nat)
    ensures n <= |lines|
    ensures forall i :: 0 <= i < n ==> !OnlyWhitespace(lines[i])
    ensures n < |lines| ==> OnlyWhitespace(lines[n])
    decreases |lines|
  {
    if lines == [] || OnlyWhitespace(lines[0]) then 0 else 1 + HeaderEnd(lines[1..])
  }

  /** Every line the loop splits holds a ':'; split is undefined otherwise. */
  predicate HeadersWellFormed(lines: seq<String>)
  {
    forall i :: 0 <= i < HeaderEnd(lines) ==> ':' in lines[i]
  }

  type Entry = (String, String)

  /** map::emplace: a key already present keeps its value. */
  function Emplace(m: map<String, String>, kv: Entry): map<String, String>
  {
    if kv.0 in m then m else m[kv.0 := kv.1]
  }

  /** The entries after emplacing es, in order, into m. */
  function Emplaced(m: map<String, String>, es: seq<Entry>): map<String, String>
    decreases |es|
  {
    if es == [] then m else Emplaced(Emplace(m, es[0]), es[1..])
  }

  /** The split of every line, at its first ':'. */
  function SplitAll(ls: seq<String>): seq<Entry>
    requires forall i :: 0 <= i < |ls| ==> ':' in ls[i]
  {
    seq(|ls|, i requires 0 <= i < |ls| => Split(ls[i], ':'))
  }

  /** The split header lines, up to the first whitespace-only line. */
  function HeaderEntries(lines: seq<String>): (es: seq<Entry>)
    requires HeadersWellFormed(lines)
    ensures |es| == HeaderEnd(lines)
    ensures forall i :: 0 <= i < |es| ==> es[i] == Split(lines[i], ':')
  {
    var block := lines[..HeaderEnd(lines)];
    assert forall i :: 0 <= i < |block| ==> block[i] == lines[i];
    SplitAll(block)
  }

  /** The entries of a record whose header lines are `lines`. */
  function Headers(lines: seq<String>): map<String, String>
    requires HeadersWellFormed(lines)
  {
    Emplaced(map[], HeaderEntries(lines))
  }

  lemma {:induction false} EmplacedKeys(m: map<String, String>, es: seq<Entry>, k: String)
    ensures k in Emplaced(m, es) <==> k in m || exists i :: 0 <= i < |es| && es[i].0 == k
    decreases |es|
  {
    if es != [] {
      EmplacedKeys(Emplace(m, es[0]), es[1..], k);
      assert forall i :: 0 <= i < |es| - 1 ==> es[1..][i] == es[i + 1];
      if exists i :: 0 <= i < |es| && es[i].0 == k {
        var i :| 0 <= i < |es| && es[i].0 == k;
        assert i == 0 || es[1..][i - 1].0 == k;
      }
    }
  }

  lemma {:induction false} EmplacedKeeps(m: map<String, String>, es: seq<Entry>, k: String)
    requires k in m
    ensures k in Emplaced(m, es) && Emplaced(m, es)[k] == m[k]
    decreases |es|
  {
    if es != [] {
      EmplacedKeeps(Emplace(m, es[0]), es[1..], k);
    }
  }

  /** The first entry with a key not yet present decides that key's value. */
  lemma {:induction false} EmplacedFirst(m: map<String, String>, es: seq<Entry>, i: nat)
    requires i < |es| && es[i].0 !in m
    requires forall j :: 0 <= j < i ==> es[j].0 != es[i].0
    ensures es[i].0 in Emplaced(m, es) && Emplaced(m, es)[es[i].0] == es[i].1
    decreases |es|
  {
    var m' := Emplace(m, es[0]);
    if i == 0 {
      EmplacedKeeps(m', es[1..], es[0].0);
    } else {
      assert forall j :: 0 <= j < |es| - 1 ==> es[1..][j] == es[j + 1];
      EmplacedFirst(m', es[1..], i - 1);
    }
  }

  /** The entries hold the value of the first header line with a key. */
  lemma {:induction false} HeadersFirstWins(lines: seq<String>, i: nat)
    requires HeadersWellFormed(lines) && i < HeaderEnd(lines)
    requires forall j :: 0 <= j < i ==> Split(lines[j], ':').0 != Split(lines[i], ':').0
    ensures Split(lines[i], ':').0 in Headers(lines)
    ensures Headers(lines)[Split(lines[i], ':').0] == Split(lines[i], ':').1
  {
    EmplacedFirst(map[], HeaderEntries(lines), i);
  }

  /** The entries hold a key exactly when some header line has it. */
  lemma {:induction false} HeadersKeys(lines: seq<String>, k: String)
    requires HeadersWellFormed(lines)
    ensures k in Headers(lines) <==> exists i :: 0 <= i < HeaderEnd(lines) && Split(lines[i], ':').0 == k
  {
    var es := HeaderEntries(lines);
    EmplacedKeys(map[], es, k);
  }

  /** WARCRecord: the header entries and the content of one record. */
  class WarcRecord {
    var entries: map<String, String>
    var content: String

    constructor ()
      ensures entries == map[] && content == []
    {
      entries := map[];
      content := [];
    }

    /**
     * The header loop of operator>>: clears the entries, then emplaces the split
     * of each line up to the first whitespace-only line or the end of input.
     */
    method ReadHeaders(lines: seq<String>)
      requires HeadersWellFormed(lines)
      modifies this`entries
      ensures entries == Headers(lines)
    {
      entries := map[];
      ghost var es := HeaderEntries(lines);
      var i := 0;
      while i < |lines| && !OnlyWhitespace(lines[i])
        invariant 0 <= i <= HeaderEnd(lines)
        invariant Emplaced(entries, es[i..]) == Headers(lines)
      {
        assert es[i] == Split(lines[i], ':') && es[i..][1..] == es[i + 1..];
        entries := Emplace(entries, Split(lines[i], ':'));
        i := i + 1;
      }
      assert es[i..] == [];
    }

    /**
     * operator>> on a record: the version line, the header block, then
     * record.entries["Content-Length"] (which inserts an empty value when the
     * header is missing), the content resized to that length and filled from
     * body. ok is false where an assertion of the source fails: a version other
     * than "WARC/1.0", or a body shorter than the length.
     */
    method ReadRecord(version: String, lines: seq<String>, body: String) returns (ok: bool)
      requires HeadersWellFormed(lines)
      modifies this
      ensures version != "WARC/1.0" ==> !ok && entries == map[] && content == old(content)
      ensures version == "WARC/1.0" ==>
        var h := Headers(lines);
        var length := ParseULL(if "Content-Length" in h then h["Content-Length"] else "");
        entries == (if "Content-Length" in h then h else h["Content-Length" := ""]) &&
        ok == (|body| >= length) &&
        |content| == length &&
        (ok ==> content == body[..length]) &&
        (!ok ==> content == body + Resize(old(content), length)[|body|..])
    {
      entries := map[];
      if version != "WARC/1.0" {
        return false;
      }
      ReadHeaders(lines);
      if "Content-Length" !in entries {
        entries := entries["Content-Length" := ""];
      }
      var length := ParseULL(entries["Content-Length"]);
      content := Resize(content, length);
      if |body| >= length {
        content := body[..length];
        ok := true;
      } else {
        content := body + content[|body|..];
        ok := false;
      }
    }
  }
}
