/**
 * Byte and text primitives used by the subtitle decoders.
 *
 * Payloads are sequences of bytes.  Strings are sequences of code units:
 * bytes for the narrow (`char`) strings, UTF-16 units for the wide
 * (`WCHAR`) ones.  Multi-byte integers in a payload are little-endian, as
 * the decoders read them through `WORD*`, `DWORD*` and `int*` casts on x86.
 * The string helpers the decoders call (`CString::Replace`,
 * `CString::Trim`, `wcstol`) are defined here by their documented meaning.
 */
module SubtitleText {
  import opened CInt

  /** One byte of a sample payload. */
  type Byte = x: int | 0 <= x < 0x100

  /** A string as a sequence of code units. */
  type Text = seq<int>

  /** The code units of a string literal. */
  function Units(s: string): (t: Text)
    ensures |t| == |s| && forall i :: 0 <= i < |s| ==> t[i] == s[i] as int
  {
    seq(|s|, i requires 0 <= i < |s| => s[i] as int)
  }

  const CR := 13
  const LF := 10

  /** 256^n, the number of values an n-byte field holds. */
  function Pow256(n: nat): (r: nat)
    ensures r >= 1
  {
    if n == 0 then 1 else 0x100 * Pow256(n - 1)
  }

  // ---------------------------------------------------------------------
  // Little-endian fields

  /** The n-byte little-endian unsigned integer stored at `at`. */
  function ReadLe(data: seq<Byte>, at: nat, n: nat): (r: nat)
    requires at + n <= |data|
    ensures r < Pow256(n)
    decreases n
  {
    if n == 0 then 0 else data[at] + 0x100 * ReadLe(data, at + 1, n - 1)
  }

  /** The little-endian encoding of `v` in n bytes. */
  function LeBytes(v: nat, n: nat): (r: seq<Byte>)
    ensures |r| == n
    decreases n
  {
    if n == 0 then [] else [v % 0x100] + LeBytes(v / 0x100, n - 1)
  }

  /** Reading an n-byte field back from its encoding gives the value stored. */
  lemma {:induction false} ReadLeBytes(data: seq<Byte>, at: nat, v: nat, n: nat)
    requires at + n <= |data| && v < Pow256(n)
    requires data[at..at + n] == LeBytes(v, n)
    ensures ReadLe(data, at, n) == v
    decreases n
  {
    if n > 0 {
      assert data[at] == LeBytes(v, n)[0];
      assert data[at + 1..at + n] == LeBytes(v / 0x100, n - 1) by {
        assert data[at + 1..at + n] == data[at..at + n][1..];
      }
      ReadLeBytes(data, at + 1, v / 0x100, n - 1);
    }
  }

  /** A `WORD` read through a `WORD*`. */
  function ReadWord(data: seq<Byte>, at: nat): (r: nat)
    requires at + 2 <= |data|
    ensures r < 0x1_0000
  {
    ReadLe(data, at, 2)
  }

  /** A `DWORD` read through a `DWORD*`. */
  function ReadDword(data: seq<Byte>, at: nat): (r: Dword)
    requires at + 4 <= |data|
  {
    assert Pow256(4) == 0x1_0000_0000;
    ReadLe(data, at, 4)
  }

  /** An `int` read through an `int*`: the DWORD read as two's complement. */
  function ReadInt32(data: seq<Byte>, at: nat): (r: Int32)
    requires at + 4 <= |data|
    ensures Bits(r) == ReadDword(data, at)
  {
    FromBits(ReadDword(data, at))
  }

  // ---------------------------------------------------------------------
  // Zero-terminated strings inside a payload

  /**
   * A narrow string starting at `from`: the bytes up to the first NUL.
   * The model stops at the end of the payload as well.
   */
  function NarrowString(data: seq<Byte>, from: nat): (r: Text)
    requires from <= |data|
    ensures from + |r| <= |data|
    ensures r == data[from..from + |r|]
    ensures forall i :: 0 <= i < |r| ==> r[i] != 0
    ensures from + |r| == |data| || data[from + |r|] == 0
    decreases |data| - from
  {
    if from == |data| || data[from] == 0 then []
    else [data[from]] + NarrowString(data, from + 1)
  }

  /**
   * A wide string starting at `from`: the UTF-16 units up to the first NUL
   * unit.  The model stops where fewer than two bytes remain.
   */
  function WideString(data: seq<Byte>, from: nat): (r: Text)
    requires from <= |data|
    ensures from + 2 * |r| <= |data|
    ensures forall i :: 0 <= i < |r| ==> r[i] == ReadWord(data, from + 2 * i) && r[i] != 0
    ensures from + 2 * |r| + 2 > |data| || ReadWord(data, from + 2 * |r|) == 0
    decreases |data| - from
  {
    if from + 2 > |data| || ReadWord(data, from) == 0 then []
    else [ReadWord(data, from)] + WideString(data, from + 2)
  }

  // ---------------------------------------------------------------------
  // Spans, whitespace and trimming

  /** The length of the longest prefix of `s` whose units all satisfy `p`. */
  function Span(s: Text, p: int -> bool): (k: nat)
    ensures k <= |s|
    ensures forall i :: 0 <= i < k ==> p(s[i])
    ensures k == |s| || !p(s[k])
  {
    if |s| == 0 || !p(s[0]) then 0 else 1 + Span(s[1..], p)
  }

  /** A prefix of units satisfying `p` followed by one that does not is the span. */
  lemma {:induction false} SpanOfPrefix(a: Text, b: Text, p: int -> bool)
    requires forall i :: 0 <= i < |a| ==> p(a[i])
    requires |b| == 0 || !p(b[0])
    ensures Span(a + b, p) == |a|
  {
    if |a| > 0 {
      assert (a + b)[1..] == a[1..] + b;
      SpanOfPrefix(a[1..], b, p);
    } else {
      assert a + b == b;
    }
  }

  /** The white-space units of the C locale: space, \t, \n, \v, \f and \r. */
  predicate IsSpace(c: int)
  {
    c == 32 || 9 <= c <= 13
  }

  /** The number of trailing white-space units of `s`. */
  function TrailingSpaces(s: Text): (k: nat)
    ensures k <= |s|
    ensures forall i :: |s| - k <= i < |s| ==> IsSpace(s[i])
    ensures k == |s| || !IsSpace(s[|s| - k - 1])
  {
    if |s| == 0 || !IsSpace(s[|s| - 1]) then 0 else 1 + TrailingSpaces(s[..|s| - 1])
  }

  /** Where a C string scan stops: the index of the first NUL unit, or the length when there is none. */
  function NulIndex(s: Text): (z: nat)
    ensures z <= |s|
    ensures forall i :: 0 <= i < z ==> s[i] != 0
    ensures z == |s| || s[z] == 0
  {
    if |s| == 0 || s[0] == 0 then 0 else 1 + NulIndex(s[1..])
  }

  /** The scan's stop is fixed by the units: none is NUL before it, and it is a NUL or the end. */
  lemma NulIndexUnique(s: Text, z: nat)
    requires z <= |s| && (forall i :: 0 <= i < z ==> s[i] != 0) && (z == |s| || s[z] == 0)
    ensures NulIndex(s) == z
  {
  }

  /**
   * `CStringT::TrimRight`: the scan runs up to the first NUL; when the units
   * just before it (or before the end) are white space, the string is
   * truncated where that run starts, losing the NUL and all that follows.
   * Otherwise the string, embedded NUL included, is left as it is.
   */
  function TrimRight(s: Text): (r: Text)
    ensures |r| <= |s| && r == s[..|r|]
  {
    var z := NulIndex(s);
    var k := TrailingSpaces(s[..z]);
    if k > 0 then s[..z - k] else s
  }

  /** `CStringT::TrimLeft`: the leading white space removed; a NUL is not white space. */
  function TrimLeft(s: Text): (r: Text)
    ensures |r| <= |s| && r == s[|s| - |r|..]
    ensures |r| > 0 ==> !IsSpace(r[0])
  {
    s[Span(s, IsSpace)..]
  }

  /** `CStringT::Trim`: `TrimRight`, then `TrimLeft`. */
  function Trim(s: Text): (r: Text)
    ensures |r| <= |s|
    ensures |r| > 0 ==> !IsSpace(r[0])
  {
    TrimLeft(TrimRight(s))
  }

  /**
   * Trimming removes only white space, and an embedded NUL stops it: the
   * result is the slice of `s` starting at `k`, everything before `k` is
   * white space, and the slice either runs to the end of `s` or stops
   * within the units before the first NUL, all of whose remaining units
   * are white space (the NUL and what follows it are dropped with them).
   */
  lemma {:induction false} TrimIsSlice(s: Text) returns (k: nat)
    ensures k + |Trim(s)| <= |s|
    ensures Trim(s) == s[k..k + |Trim(s)|]
    ensures forall i :: 0 <= i < k ==> IsSpace(s[i])
    ensures k + |Trim(s)| == |s| ||
      (k + |Trim(s)| <= NulIndex(s) && forall i :: k + |Trim(s)| <= i < NulIndex(s) ==> IsSpace(s[i]))
  {
    var tr := TrimRight(s);
    k := Span(tr, IsSpace);
    var z := NulIndex(s);
    var t := TrailingSpaces(s[..z]);
    if t > 0 {
      forall i | z - t <= i < z
        ensures IsSpace(s[i])
      {
        assert s[i] == s[..z][i];
      }
    }
  }

  /** A string all of white space has only trailing white space. */
  lemma TrailingAllSpace(s: Text)
    requires AllSpace(s)
    ensures TrailingSpaces(s) == |s|
  {
  }

  /**
   * A string trims to nothing exactly when the units before its first NUL
   * are all white space and there is at least one of them, or the string
   * is empty: a string starting with NUL keeps its NUL and what follows.
   */
  lemma {:induction false} TrimEmpty(s: Text)
    ensures |Trim(s)| == 0 <==> AllSpace(s[..NulIndex(s)]) && (NulIndex(s) > 0 || |s| == 0)
  {
    if |Trim(s)| == 0 {
      TrimEmptyOnlyIf(s);
    }
    if AllSpace(s[..NulIndex(s)]) && (NulIndex(s) > 0 || |s| == 0) {
      TrimEmptyIf(s);
    }
  }

  /** White space up to the first NUL, and at least one unit of it, trims to nothing. */
  lemma {:induction false} TrimEmptyIf(s: Text)
    requires AllSpace(s[..NulIndex(s)]) && (NulIndex(s) > 0 || |s| == 0)
    ensures |Trim(s)| == 0
  {
    var z := NulIndex(s);
    TrailingAllSpace(s[..z]);
    if z > 0 {
      assert TrimRight(s) == [];
    }
  }

  /** A string that trims to nothing is white space up to its first NUL, and that NUL is not its first unit. */
  lemma {:induction false} TrimEmptyOnlyIf(s: Text)
    requires |Trim(s)| == 0
    ensures AllSpace(s[..NulIndex(s)]) && (NulIndex(s) > 0 || |s| == 0)
  {
    TrimLeftEmpty(TrimRight(s));
    if TrailingSpaces(s[..NulIndex(s)]) > 0 {
      TrimEmptyCut(s);
    } else {
      TrimEmptyWhole(s);
    }
  }

  /** Only a string of white space loses everything to `TrimLeft`. */
  lemma {:induction false} TrimLeftEmpty(s: Text)
    requires |TrimLeft(s)| == 0
    ensures AllSpace(s)
  {
    assert Span(s, IsSpace) == |s|;
  }

  /** When `TrimRight` cuts and leaves only white space, the cut took everything before the first NUL. */
  lemma {:induction false} TrimEmptyCut(s: Text)
    requires TrailingSpaces(s[..NulIndex(s)]) > 0
    requires AllSpace(TrimRight(s))
    ensures AllSpace(s[..NulIndex(s)]) && NulIndex(s) > 0
  {
  }

  /** When `TrimRight` keeps a string that is all white space, the string is empty. */
  lemma {:induction false} TrimEmptyWhole(s: Text)
    requires TrailingSpaces(s[..NulIndex(s)]) == 0
    requires AllSpace(TrimRight(s))
    ensures |s| == 0
  {
    assert TrimRight(s) == s;
  }

  /** A string whose last unit is not white space has no trailing white space. */
  lemma {:induction false} NoTrailingSpaces(s: Text)
    requires |s| == 0 || !IsSpace(s[|s| - 1])
    ensures TrailingSpaces(s) == 0
  {
  }

  /** A string that starts with no white space and has none just before its first NUL (or its end) is its own trim. */
  lemma {:induction false} TrimKeeps(s: Text)
    requires |s| > 0 ==> !IsSpace(s[0])
    requires NulIndex(s) == 0 || !IsSpace(s[NulIndex(s) - 1])
    ensures Trim(s) == s
  {
    TrimRightKeeps(s);
    TrimLeftKeeps(s);
  }

  /** `TrimRight` leaves a string with no white space just before its first NUL (or its end) as it is. */
  lemma {:induction false} TrimRightKeeps(s: Text)
    requires NulIndex(s) == 0 || !IsSpace(s[NulIndex(s) - 1])
    ensures TrimRight(s) == s
  {
    var z := NulIndex(s);
    NoTrailingSpaces(s[..z]) by {
      if z > 0 {
        assert s[..z][z - 1] == s[z - 1];
      }
    }
  }

  /** `TrimLeft` leaves a string that does not start with white space as it is. */
  lemma {:induction false} TrimLeftKeeps(s: Text)
    requires |s| > 0 ==> !IsSpace(s[0])
    ensures TrimLeft(s) == s
  {
    assert s[0..] == s;
  }

  /** When `TrimRight` cuts, the trimmed string has no NUL and ends in a unit that is not white space. */
  lemma {:induction false} TrimmedEndCut(s: Text)
    requires TrailingSpaces(s[..NulIndex(s)]) > 0
    ensures var r := Trim(s);
      NulIndex(r) == 0 || !IsSpace(r[NulIndex(r) - 1])
  {
    var z := NulIndex(s);
    var t := TrailingSpaces(s[..z]);
    var tr := TrimRight(s);
    assert tr == s[..z - t];
    NulIndexUnique(tr, |tr|) by {
      forall i | 0 <= i < |tr|
        ensures tr[i] != 0
      {
        assert tr[i] == s[i];
      }
    }
    if |tr| > 0 {
      assert tr[|tr| - 1] == s[..z][z - t - 1];
    }
    TrimLeftEnd(tr);
  }

  /** When `TrimRight` keeps the string, the unit before its first NUL (or its end) is not white space, nor is it after `TrimLeft`. */
  lemma {:induction false} TrimmedEndWhole(s: Text)
    requires TrailingSpaces(s[..NulIndex(s)]) == 0
    ensures var r := Trim(s);
      NulIndex(r) == 0 || !IsSpace(r[NulIndex(r) - 1])
  {
    var z := NulIndex(s);
    assert TrimRight(s) == s;
    if z > 0 {
      assert s[..z][z - 1] == s[z - 1];
    }
    TrimLeftEnd(s);
  }

  /** `TrimLeft` keeps a string's last unit before its first NUL (or its end) when that unit is not white space. */
  lemma {:induction false} TrimLeftEnd(s: Text)
    requires NulIndex(s) == 0 || !IsSpace(s[NulIndex(s) - 1])
    ensures var r := TrimLeft(s);
      NulIndex(r) == 0 || !IsSpace(r[NulIndex(r) - 1])
  {
    var z := NulIndex(s);
    var j := Span(s, IsSpace);
    assert j <= z by {
      if z < |s| {
        assert !IsSpace(s[z]);
      }
    }
    NulEndDrop(s, j);
  }

  /** Dropping units before the first NUL keeps the unit just before it. */
  lemma {:induction false} NulEndDrop(s: Text, j: nat)
    requires j <= NulIndex(s)
    requires NulIndex(s) == 0 || !IsSpace(s[NulIndex(s) - 1])
    ensures var r := s[j..];
      NulIndex(r) == 0 || !IsSpace(r[NulIndex(r) - 1])
  {
    var z := NulIndex(s);
    NulIndexDrop(s, j);
    if z - j > 0 {
      assert s[j..][z - j - 1] == s[z - 1];
    }
  }

  /** Dropping units before the first NUL moves the NUL by as many places. */
  lemma {:induction false} NulIndexDrop(s: Text, j: nat)
    requires j <= NulIndex(s)
    ensures NulIndex(s[j..]) == NulIndex(s) - j
  {
    var z := NulIndex(s);
    var r := s[j..];
    NulIndexUnique(r, z - j) by {
      forall i | 0 <= i < z - j
        ensures r[i] != 0
      {
        assert r[i] == s[j + i];
      }
      if z < |s| {
        assert r[z - j] == s[z];
      }
    }
  }

  /** The unit before a trimmed string's first NUL, or its last unit, is not white space. */
  lemma {:induction false} TrimmedEnd(s: Text)
    ensures var r := Trim(s);
      NulIndex(r) == 0 || !IsSpace(r[NulIndex(r) - 1])
  {
    if TrailingSpaces(s[..NulIndex(s)]) > 0 {
      TrimmedEndCut(s);
    } else {
      TrimmedEndWhole(s);
    }
  }

  /** Trimming is idempotent. */
  lemma {:induction false} TrimTwice(s: Text)
    ensures Trim(Trim(s)) == Trim(s)
  {
    TrimmedEnd(s);
    TrimKeeps(Trim(s));
  }

  // ---------------------------------------------------------------------
  // Line endings

  /** `CString::Replace("\r\n", "\n")`: each CR LF, found left to right, becomes LF. */
  function ReplaceCrLf(s: Text): (r: Text)
    ensures |r| <= |s|
    ensures |r| == 0 <==> |s| == 0
  {
    if |s| == 0 then []
    else if |s| >= 2 && s[0] == CR && s[1] == LF then [LF] + ReplaceCrLf(s[2..])
    else [s[0]] + ReplaceCrLf(s[1..])
  }

  /** The inverse direction: every LF written as CR LF. */
  function ToCrLf(t: Text): (r: Text)
    ensures |r| >= |t|
    ensures |t| > 0 ==> |r| > 0 && r[0] != LF
  {
    if |t| == 0 then []
    else if t[0] == LF then [CR, LF] + ToCrLf(t[1..])
    else [t[0]] + ToCrLf(t[1..])
  }

  /** Normalising CR LF line endings undoes writing them: even a lone CR survives. */
  lemma {:induction false} ReplaceCrLfUndoesToCrLf(t: Text)
    ensures ReplaceCrLf(ToCrLf(t)) == t
  {
    if |t| > 0 {
      ReplaceCrLfUndoesToCrLf(t[1..]);
      var rest := ToCrLf(t[1..]);
      if t[0] == LF {
        assert ([CR, LF] + rest)[2..] == rest;
      } else {
        assert ([t[0]] + rest)[1..] == rest;
      }
    }
  }

  /** A string without a CR LF pair is left unchanged. */
  lemma {:induction false} ReplaceCrLfKeeps(s: Text)
    requires forall i :: 0 <= i < |s| - 1 ==> !(s[i] == CR && s[i + 1] == LF)
    ensures ReplaceCrLf(s) == s
  {
    if |s| > 0 {
      ReplaceCrLfKeeps(s[1..]);
    }
  }

  /** A prefix without CR passes through unchanged, whatever follows it. */
  lemma {:induction false} ReplaceCrLfPrefix(a: Text, b: Text)
    requires forall i :: 0 <= i < |a| ==> a[i] != CR
    ensures ReplaceCrLf(a + b) == a + ReplaceCrLf(b)
  {
    if |a| == 0 {
      assert a + b == b;
    } else {
      assert (a + b)[1..] == a[1..] + b;
      ReplaceCrLfPrefix(a[1..], b);
      assert a == [a[0]] + a[1..];
    }
  }

  /** Concatenation is associative. */
  lemma ConcatAssoc(x: Text, y: Text, z: Text)
    ensures x + (y + z) == (x + y) + z
  {
  }

  /** A split that does not separate a CR from its LF can be normalised piece by piece. */
  lemma {:induction false} ReplaceCrLfSplit(a: Text, b: Text)
    requires |b| == 0 || b[0] != LF
    ensures ReplaceCrLf(a + b) == ReplaceCrLf(a) + ReplaceCrLf(b)
  {
    if |a| == 0 {
      assert a + b == b;
    } else if |a| >= 2 && a[0] == CR && a[1] == LF {
      assert (a + b)[2..] == a[2..] + b;
      assert ReplaceCrLf(a + b) == [LF] + ReplaceCrLf(a[2..] + b);
      ReplaceCrLfSplit(a[2..], b);
      assert ReplaceCrLf(a) == [LF] + ReplaceCrLf(a[2..]);
      ConcatAssoc([LF], ReplaceCrLf(a[2..]), ReplaceCrLf(b));
    } else {
      // a lone CR at the end of `a` stays, since `b` does not start with LF
      assert (a + b)[0] == a[0];
      assert !(|a + b| >= 2 && (a + b)[1] == LF && a[0] == CR) by {
        if |a| == 1 && |a + b| >= 2 {
          assert (a + b)[1] == b[0];
        }
      }
      assert (a + b)[1..] == a[1..] + b;
      assert ReplaceCrLf(a + b) == [a[0]] + ReplaceCrLf(a[1..] + b);
      ReplaceCrLfSplit(a[1..], b);
      assert ReplaceCrLf(a) == [a[0]] + ReplaceCrLf(a[1..]);
      ConcatAssoc([a[0]], ReplaceCrLf(a[1..]), ReplaceCrLf(b));
    }
  }

  /** Normalising line endings brings in no NUL. */
  lemma {:induction false} ReplaceCrLfNulFree(s: Text)
    requires forall i :: 0 <= i < |s| ==> s[i] != 0
    ensures forall i :: 0 <= i < |ReplaceCrLf(s)| ==> ReplaceCrLf(s)[i] != 0
  {
    if |s| >= 2 && s[0] == CR && s[1] == LF {
      ReplaceCrLfNulFree(s[2..]);
    } else if |s| > 0 {
      ReplaceCrLfNulFree(s[1..]);
    }
  }

  /**
   * A line that does not start with NUL normalises and trims to nothing
   * exactly when everything before its first NUL is white space: the NUL
   * survives normalisation in place, and CR LF and LF are both white space.
   */
  lemma {:induction false} NormalisedTrimEmpty(s: Text)
    requires |s| > 0 && s[0] != 0
    ensures |Trim(ReplaceCrLf(s))| == 0 <==> AllSpace(s[..NulIndex(s)])
  {
    var z := NulIndex(s);
    var a, b := s[..z], s[z..];
    assert s == a + b;
    ReplaceCrLfSplit(a, b);
    ReplaceCrLfNulFree(a);
    var ra, rs := ReplaceCrLf(a), ReplaceCrLf(s);
    NulIndexUnique(rs, |ra|) by {
      forall i | 0 <= i < |ra|
        ensures rs[i] != 0
      {
        assert rs[i] == ra[i];
      }
      if |ra| < |rs| {
        assert rs[|ra|] == ReplaceCrLf(b)[0] == b[0];
      }
    }
    assert rs[..|ra|] == ra;
    TrimEmpty(rs);
    ReplaceCrLfAllSpace(a);
  }

  predicate AllSpace(s: Text)
  {
    forall i :: 0 <= i < |s| ==> IsSpace(s[i])
  }

  /** A concatenation is all white space exactly when both parts are. */
  lemma AllSpaceAppend(a: Text, b: Text)
    ensures AllSpace(a + b) <==> AllSpace(a) && AllSpace(b)
  {
    if AllSpace(a) && AllSpace(b) {
      forall i | 0 <= i < |a + b|
        ensures IsSpace((a + b)[i])
      {
        if i >= |a| {
          assert (a + b)[i] == b[i - |a|];
        }
      }
    }
    if AllSpace(a + b) {
      forall i | 0 <= i < |a|
        ensures IsSpace(a[i])
      {
        assert (a + b)[i] == a[i];
      }
      forall i | 0 <= i < |b|
        ensures IsSpace(b[i])
      {
        assert (a + b)[|a| + i] == b[i];
      }
    }
  }

  /** CR and LF are both white space, so normalising line endings keeps a string all white space or not. */
  lemma {:induction false} ReplaceCrLfAllSpace(s: Text)
    ensures AllSpace(ReplaceCrLf(s)) <==> AllSpace(s)
  {
    if |s| > 0 {
      var n := if |s| >= 2 && s[0] == CR && s[1] == LF then 2 else 1;
      var head := if n == 2 then [LF] else [s[0]];
      ReplaceCrLfAllSpace(s[n..]);
      assert ReplaceCrLf(s) == head + ReplaceCrLf(s[n..]);
      AllSpaceAppend(head, ReplaceCrLf(s[n..]));
      assert s == s[..n] + s[n..];
      AllSpaceAppend(s[..n], s[n..]);
      assert AllSpace(head) <==> AllSpace(s[..n]);
    }
  }

  // ---------------------------------------------------------------------
  // wcstol, base 10 (ISO/IEC 9899:2011 section 7.29.4.1.2)

  const LONG_MAX := 0x7FFF_FFFF
  const LONG_MIN := -0x8000_0000

  predicate IsDigit(c: int)
  {
    '0' as int <= c <= '9' as int
  }

  /** The value of a string of decimal digits, most significant first. */
  function DigitsValue(d: Text): (v: nat)
    requires forall i :: 0 <= i < |d| ==> IsDigit(d[i])
  {
    if |d| == 0 then 0
    else
      assert IsDigit(d[|d| - 1]);
      DigitsValue(d[..|d| - 1]) * 10 + (d[|d| - 1] - '0' as int)
  }

  /** The decimal digits of `n`, most significant first, without leading zeros. */
  function DecimalDigits(n: nat): (d: Text)
    ensures |d| > 0
    ensures forall i :: 0 <= i < |d| ==> IsDigit(d[i])
  {
    if n < 10 then ['0' as int + n] else DecimalDigits(n / 10) + ['0' as int + n % 10]
  }

  /** Reading the decimal digits of `n` gives back `n`. */
  lemma {:induction false} DigitsValueOfDecimal(n: nat)
    ensures DigitsValue(DecimalDigits(n)) == n
  {
    if n >= 10 {
      var d := DecimalDigits(n);
      assert d[..|d| - 1] == DecimalDigits(n / 10);
      DigitsValueOfDecimal(n / 10);
    }
  }

  /** `n` written in decimal, with a minus sign when negative. */
  function Decimal(n: int): (s: Text)
    ensures |s| > 0 && !IsSpace(s[0])
  {
    if n < 0 then ['-' as int] + DecimalDigits(-n) else DecimalDigits(n)
  }

  /** A C `long` holds the value, or the bound on the side it overflows. */
  function Saturate(x: int): (r: Int32)
  {
    if x > LONG_MAX then LONG_MAX else if x < LONG_MIN then LONG_MIN else x
  }

  /**
   * The conversion after the leading white space: an optional sign and the
   * longest run of decimal digits after it; no digits gives 0, and a value
   * out of range gives `LONG_MAX` or `LONG_MIN`.
   */
  function ParseLong(body: Text): (r: Int32)
  {
    if |body| > 0 && body[0] == '-' as int then Saturate(-(Magnitude(body[1..]) as int))
    else if |body| > 0 && body[0] == '+' as int then Saturate(Magnitude(body[1..]))
    else Saturate(Magnitude(body))
  }

  /** The value of the decimal digits at the start of `s`. */
  function Magnitude(s: Text): nat
  {
    DigitsValue(s[..Span(s, IsDigit)])
  }

  /** Digits followed by a non-digit have the digits' value. */
  lemma MagnitudeOfDigits(d: Text, tail: Text)
    requires forall i :: 0 <= i < |d| ==> IsDigit(d[i])
    requires |tail| == 0 || !IsDigit(tail[0])
    ensures Magnitude(d + tail) == DigitsValue(d)
  {
    SpanOfPrefix(d, tail, IsDigit);
    assert (d + tail)[..|d|] == d;
  }

  /** `wcstol(s, NULL, 10)`: skips leading white space, then converts. */
  function Wcstol(s: Text): (r: Int32)
    ensures AllSpace(s) ==> r == 0
  {
    ParseLong(s[Span(s, IsSpace)..])
  }

  /** Leading white space does not change what `wcstol` reads. */
  lemma WcstolSkipsSpaces(spaces: Text, x: Text)
    requires forall i :: 0 <= i < |spaces| ==> IsSpace(spaces[i])
    requires |x| > 0 && !IsSpace(x[0])
    ensures Wcstol(spaces + x) == ParseLong(x)
  {
    SpanOfPrefix(spaces, x, IsSpace);
    assert (spaces + x)[|spaces|..] == x;
  }

  /** The conversion reads back a decimal `long` followed by non-digit text. */
  lemma ParseLongDecimal(n: Int32, tail: Text)
    requires |tail| == 0 || !IsDigit(tail[0])
    ensures ParseLong(Decimal(n) + tail) == n
  {
    var m: nat := if n < 0 then -(n as int) else n;
    var d := DecimalDigits(m);
    DigitsValueOfDecimal(m);
    MagnitudeOfDigits(d, tail);
    if n < 0 {
      assert (['-' as int] + d + tail)[1..] == d + tail;
    } else {
      assert IsDigit((d + tail)[0]);
    }
  }

  /**
   * `wcstol` reads back any `long` written in decimal, whatever white
   * space precedes it and whatever non-digit text follows it.
   */
  lemma WcstolReadsDecimal(spaces: Text, n: Int32, tail: Text)
    requires forall i :: 0 <= i < |spaces| ==> IsSpace(spaces[i])
    requires |tail| == 0 || !IsDigit(tail[0])
    ensures Wcstol(spaces + Decimal(n) + tail) == n
  {
    assert spaces + Decimal(n) + tail == spaces + (Decimal(n) + tail);
    WcstolSkipsSpaces(spaces, Decimal(n) + tail);
    ParseLongDecimal(n, tail);
  }

  /** `wcstol` reads back a `long` written in decimal. */
  lemma WcstolOfDecimal(n: Int32)
    ensures Wcstol(Decimal(n)) == n
  {
    WcstolReadsDecimal([], n, []);
    assert [] + Decimal(n) + [] == Decimal(n);
  }

  /** A run of digits too large for a `long` reads as `LONG_MAX`. */
  lemma WcstolSaturates(d: Text)
    requires forall i :: 0 <= i < |d| ==> IsDigit(d[i])
    requires DigitsValue(d) > LONG_MAX
    ensures Wcstol(d) == LONG_MAX
  {
    assert |d| > 0 && IsDigit(d[0]);
    SpanOfPrefix([], d, IsSpace);
    assert [] + d == d;
    MagnitudeOfDigits(d, []);
    assert d + [] == d;
  }

  /** Text that does not start with a sign or a digit after its white space reads as 0. */
  lemma WcstolNoDigits(s: Text)
    requires forall i :: 0 <= i < |s| ==> !IsDigit(s[i]) && s[i] != '+' as int && s[i] != '-' as int
    ensures Wcstol(s) == 0
  {}

  // ---------------------------------------------------------------------
  // Times

  /**
   * `(int)(t / 10000)`: 100-nanosecond ticks to milliseconds, the division
   * truncating toward zero and the conversion keeping the low 32 bits.
   */
  function TicksToMs(t: int): (ms: Int32)
    ensures 0 <= t < 0x8000_0000 * 10000 ==> ms == t / 10000
    ensures -0x8000_0000 * 10000 < t < 0 ==> ms == -((-t) / 10000)
    ensures Bits(ms) == Bits(TruncDiv(t, 10000))
  {
    Wrap32(TruncDiv(t, 10000))
  }
}
