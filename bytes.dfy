// Byte-string helpers shared by the whole model. A `char` stands for one
// byte of the wire format and a `string` for a Go `[]byte` or `string`.

module Wrappers {
  datatype Option<+T> = None | Some(value: T)

  datatype Result<+T, +E> = Success(value: T) | Failure(error: E)
}

module Bytes {

  const CR: char := '\r'
  const LF: char := '\n'
  const CRLF: string := "\r\n"

  /** `pat` occurs in `s` starting at index `i`. */
  predicate OccursAt(s: string, pat: string, i: int)
  {
    0 <= i && i + |pat| <= |s| && s[i..i + |pat|] == pat
  }

  /** A match found in `a` stays the first match however `a` is extended. */
  lemma IndexOfExtend(a: string, b: string, pat: string)
    requires |pat| > 0 && IndexOf(a, pat) >= 0
    ensures IndexOf(a + b, pat) == IndexOf(a, pat)
  {
    var r := IndexOf(a, pat);
    OccursInPrefix(a, b, pat, r);
    var r' := IndexOf(a + b, pat);
    if r' < r {
      OccursInPrefix(a, b, pat, r');
    }
  }

  lemma OccursInPrefix(a: string, b: string, pat: string, i: int)
    requires 0 <= i && i + |pat| <= |a|
    ensures OccursAt(a + b, pat, i) <==> OccursAt(a, pat, i)
  {
    assert (a + b)[i..i + |pat|] == a[i..i + |pat|];
  }

  lemma OccursAtSingle(s: string, c: char, i: int)
    ensures OccursAt(s, [c], i) <==> 0 <= i < |s| && s[i] == c
  {
    if 0 <= i < |s| {
      assert s[i..i + 1] == [s[i]];
    }
  }

  /** `bytes.Index`: the first index at which `pat` occurs in `s`, or -1. */
  function IndexOf(s: string, pat: string): (r: int)
    requires |pat| > 0
    ensures r == -1 || 0 <= r <= |s| - |pat|
    ensures r >= 0 ==> OccursAt(s, pat, r)
    ensures forall i :: 0 <= i && (r == -1 || i < r) ==> !OccursAt(s, pat, i)
    decreases |s|
  {
    if |s| < |pat| then -1
    else if s[..|pat|] == pat then 0
    else
      var r := IndexOf(s[1..], pat);
      ShiftOccurs(s, pat);
      if r == -1 then -1 else r + 1
  }

  lemma ShiftOccurs(s: string, pat: string)
    requires |s| > 0
    ensures forall i :: 1 <= i ==> (OccursAt(s, pat, i) <==> OccursAt(s[1..], pat, i - 1))
  {
    forall i | 1 <= i
      ensures OccursAt(s, pat, i) <==> OccursAt(s[1..], pat, i - 1)
    {
      if i + |pat| <= |s| {
        assert s[1..][i - 1..i - 1 + |pat|] == s[i..i + |pat|];
      }
    }
  }

  /** `bytes.Contains`. */
  predicate Contains(s: string, pat: string)
    requires |pat| > 0
  {
    IndexOf(s, pat) >= 0
  }

  /** The first index of byte `c` in `s`, or -1 (`bytes.Index` with a one-byte pattern). */
  function IndexOfByte(s: string, c: char): (r: int)
    ensures -1 <= r < |s|
    ensures r >= 0 ==> s[r] == c
    ensures forall i :: 0 <= i < |s| && (r == -1 || i < r) ==> s[i] != c
  {
    if |s| == 0 then -1
    else if s[0] == c then 0
    else
      var r := IndexOfByte(s[1..], c);
      if r == -1 then -1 else r + 1
  }

  /** -1 means the byte does not occur. */
  lemma IndexOfByteNone(s: string, c: char)
    ensures IndexOfByte(s, c) == -1 <==> c !in s
  {
  }

  /** The parts joined with `sep` between neighbours (`bytes.Join`). */
  function Join(parts: seq<string>, sep: string): string
  {
    if |parts| == 0 then []
    else if |parts| == 1 then parts[0]
    else parts[0] + sep + Join(parts[1..], sep)
  }

  /** `bytes.Split` with a one-byte separator: the maximal pieces between occurrences of `c`. */
  function Split(s: string, c: char): (parts: seq<string>)
    ensures |parts| >= 1
    decreases |s|
  {
    var i := IndexOfByte(s, c);
    if i == -1 then [s]
    else
      var rest := Split(s[i + 1..], c);
      assert s == s[..i] + [c] + s[i + 1..];
      [s[..i]] + rest
  }

  /** There is more than one piece exactly when the separator occurs, and no piece contains it. */
  lemma {:induction false} SplitPieces(s: string, c: char)
    ensures var parts := Split(s, c);
      && (|parts| == 1 <==> c !in s)
      && forall k :: 0 <= k < |parts| ==> c !in parts[k]
    decreases |s|
  {
    var i := IndexOfByte(s, c);
    if i >= 0 {
      var rest := Split(s[i + 1..], c);
      SplitPieces(s[i + 1..], c);
      assert Split(s, c) == [s[..i]] + rest;
    }
  }

  /** Joining the pieces with the separator gives back the text. */
  lemma {:induction false} SplitJoin(s: string, c: char)
    ensures Join(Split(s, c), [c]) == s
    decreases |s|
  {
    var i := IndexOfByte(s, c);
    if i >= 0 {
      var rest := Split(s[i + 1..], c);
      SplitJoin(s[i + 1..], c);
      assert ([s[..i]] + rest)[1..] == rest;
      assert s == s[..i] + [c] + s[i + 1..];
    }
  }

  /** The last piece follows the last separator. */
  lemma {:induction false} JoinLast(parts: seq<string>, sep: string)
    requires |parts| >= 2
    ensures Join(parts, sep) == Join(parts[..|parts| - 1], sep) + sep + parts[|parts| - 1]
    decreases |parts|
  {
    var n := |parts|;
    if n == 2 {
      assert parts[1..] == [parts[1]];
      assert parts[..1] == [parts[0]];
    } else {
      JoinLast(parts[1..], sep);
      assert parts[1..][..n - 2] == parts[..n - 1][1..];
      assert Join(parts[..n - 1], sep) == parts[0] + sep + Join(parts[..n - 1][1..], sep);
    }
  }

  /** When the separator occurs, the last piece of `Split` is what follows its last occurrence,
      and the other pieces, joined without separator, are what precedes it with every
      separator removed. */
  lemma SplitLast(s: string, c: char) returns (i: nat)
    requires c in s
    ensures var parts := Split(s, c);
      && i < |s| && s[i] == c && c !in s[i + 1..]
      && s[i + 1..] == parts[|parts| - 1]
      && Remove(s[..i], c) == Concat(parts[..|parts| - 1])
  {
    SplitPieces(s, c);
    SplitJoin(s, c);
    ConcatSplit(s, c);
    i := JoinedLast(s, Split(s, c), c);
  }

  /** The same for any pieces that join to `s`, none of which holds the separator. */
  lemma JoinedLast(s: string, parts: seq<string>, c: char) returns (i: nat)
    requires |parts| >= 2 && s == Join(parts, [c]) && Concat(parts) == Remove(s, c)
    requires forall k :: 0 <= k < |parts| ==> c !in parts[k]
    ensures i < |s| && s[i] == c && c !in s[i + 1..]
    ensures s[i + 1..] == parts[|parts| - 1]
    ensures Remove(s[..i], c) == Concat(parts[..|parts| - 1])
  {
    var n := |parts|;
    JoinLast(parts, [c]);
    var pre, last := Join(parts[..n - 1], [c]), parts[n - 1];
    i := |pre|;
    assert s == pre + ([c] + last);
    assert s[..i] == pre && s[i + 1..] == last;
    var a, b := Remove(pre, c), Concat(parts[..n - 1]);
    assert a + last == b + last by {
      RemoveLast(pre, last, c);
      ConcatLast(parts);
    }
    CancelRight(a, b, last);
  }

  lemma RemoveLast(pre: string, last: string, c: char)
    requires c !in last
    ensures Remove(pre + ([c] + last), c) == Remove(pre, c) + last
  {
    RemoveAppend([c], last, c);
    RemoveFree(last, c);
    assert Remove([c], c) == [] by {
      assert [c][1..] == [];
    }
    assert Remove([c] + last, c) == last;
    RemoveAppend(pre, [c] + last, c);
  }

  /** The last piece completes the concatenation of the others. */
  lemma ConcatLast(parts: seq<string>)
    requires |parts| > 0
    ensures Concat(parts[..|parts| - 1]) + parts[|parts| - 1] == Concat(parts)
  {
    var n := |parts|;
    assert parts == parts[..n - 1] + [parts[n - 1]];
    ConcatAppend(parts[..n - 1], [parts[n - 1]]);
    ConcatOne(parts[n - 1]);
  }

  lemma CancelRight(a: string, b: string, x: string)
    requires a + x == b + x
    ensures a == b
  {
    assert a == (a + x)[..|a|] && b == (b + x)[..|b|];
  }

  /** A byte that occurs at `k` and nowhere before is what `IndexOfByte` finds. */
  lemma FirstByteAt(s: string, c: char, k: int)
    requires 0 <= k < |s| && s[k] == c && forall i :: 0 <= i < k ==> s[i] != c
    ensures IndexOfByte(s, c) == k
  {
  }

  lemma JoinThree(parts: seq<string>, sep: string)
    requires |parts| == 3
    ensures Join(parts, sep) == parts[0] + sep + parts[1] + sep + parts[2]
  {
    assert Join(parts[1..][1..], sep) == parts[2] by {
      assert parts[1..][1..] == [parts[2]];
    }
    assert Join(parts[1..], sep) == parts[1] + sep + parts[2];
  }

  /** Splitting peels off the piece before the first separator. */
  lemma SplitAt(a: string, b: string, c: char)
    requires c !in a
    ensures Split(a + [c] + b, c) == [a] + Split(b, c)
  {
    var s := a + [c] + b;
    forall i | 0 <= i < |a| ensures s[i] != c {
      assert s[i] == a[i];
    }
    FirstByteAt(s, c, |a|);
    assert s[..|a|] == a && s[|a| + 1..] == b;
  }

  /** The first CRLF after a CR-free text is the one right after it. */
  lemma LineEnd(text: string, rest: string)
    requires CR !in text
    ensures IndexOf(text + CRLF + rest, CRLF) == |text|
  {
    var data := text + CRLF + rest;
    assert OccursAt(data, CRLF, |text|) by {
      assert data[|text|..|text| + 2] == CRLF;
    }
    forall i | 0 <= i < |text| ensures !OccursAt(data, CRLF, i) {
      assert data[i] == text[i];
    }
  }

  lemma Assoc(a: string, b: string, c: string)
    ensures (a + b) + c == a + (b + c)
  {
  }

  /** `s` with every occurrence of `c` removed. */
  function Remove(s: string, c: char): string
  {
    if |s| == 0 then []
    else
      (if s[0] == c then [] else [s[0]]) + Remove(s[1..], c)
  }

  lemma {:induction false} RemoveAppend(a: string, b: string, c: char)
    ensures Remove(a + b, c) == Remove(a, c) + Remove(b, c)
  {
    if |a| == 0 {
      assert a + b == b;
    } else {
      var h := if a[0] == c then [] else [a[0]];
      assert (a + b)[0] == a[0] && (a + b)[1..] == a[1..] + b;
      assert Remove(a + b, c) == h + Remove(a[1..] + b, c);
      RemoveAppend(a[1..], b, c);
      assert Remove(a, c) == h + Remove(a[1..], c);
      assert h + (Remove(a[1..], c) + Remove(b, c)) == (h + Remove(a[1..], c)) + Remove(b, c);
    }
  }

  lemma RemoveFree(s: string, c: char)
    requires c !in s
    ensures Remove(s, c) == s
  {
    if |s| > 0 {
      RemoveFree(s[1..], c);
    }
  }

  /** Concatenation without separator (`bytes.Join(parts, nil)`). */
  function Concat(parts: seq<string>): string
  {
    if |parts| == 0 then [] else parts[0] + Concat(parts[1..])
  }

  lemma {:induction false} ConcatAppend(a: seq<string>, b: seq<string>)
    ensures Concat(a + b) == Concat(a) + Concat(b)
  {
    if |a| == 0 {
      assert a + b == b;
    } else {
      assert (a + b)[1..] == a[1..] + b;
      ConcatAppend(a[1..], b);
    }
  }

  lemma ConcatOne(s: string)
    ensures Concat([s]) == s
  {
    assert [s][1..] == [];
  }

  lemma ConcatSplitStep(s: string, c: char, i: int)
    requires 0 <= i < |s| && i == IndexOfByte(s, c)
    ensures Concat(Split(s, c)) == s[..i] + Concat(Split(s[i + 1..], c))
  {
    var parts, rest := Split(s, c), Split(s[i + 1..], c);
    assert parts == [s[..i]] + rest;
    assert parts[0] == s[..i] && parts[1..] == rest;
    assert Concat(parts) == parts[0] + Concat(parts[1..]);
  }

  lemma RemoveStep(s: string, c: char, i: int)
    requires 0 <= i < |s| && s[i] == c && c !in s[..i]
    ensures Remove(s, c) == s[..i] + Remove(s[i + 1..], c)
  {
    var pre, post := s[..i], s[i + 1..];
    assert s == pre + ([c] + post);
    RemoveAppend(pre, [c] + post, c);
    RemoveAppend([c], post, c);
    RemoveFree(pre, c);
    assert Remove([c], c) == [] by {
      assert [c][1..] == [];
    }
    assert Remove([c] + post, c) == Remove(post, c);
  }

  /** Joining the pieces of `Split(s, c)` without separator gives `s` with every `c` removed. */
  lemma {:induction false} ConcatSplit(s: string, c: char)
    ensures Concat(Split(s, c)) == Remove(s, c)
    decreases |s|
  {
    var i := IndexOfByte(s, c);
    if i == -1 {
      ConcatOne(s);
      RemoveFree(s, c);
    } else {
      ConcatSplitStep(s, c, i);
      ConcatSplit(s[i + 1..], c);
      RemoveStep(s, c, i);
    }
  }

  // ASCII case folding and white space.

  function LowerByte(b: char): char
  {
    if 'A' <= b <= 'Z' then (b as int + 32) as char else b
  }

  /** `strings.ToLower` on ASCII: every upper-case letter replaced by its lower-case form. */
  function Lower(s: string): (r: string)
    ensures |r| == |s|
    ensures forall i :: 0 <= i < |s| ==> r[i] == LowerByte(s[i])
  {
    seq(|s|, i requires 0 <= i < |s| => LowerByte(s[i]))
  }

  /** The ASCII white space `strings.TrimSpace` strips. */
  predicate IsAsciiSpace(b: char)
  {
    b == '\t' || b == '\n' || b == '\U{B}' || b == '\U{C}' || b == '\r' || b == ' '
  }

  /** `unicode.IsSpace(rune(b))` for one byte `b`: ASCII white space, NEL (0x85) and NBSP (0xA0). */
  predicate IsSpaceRune(b: char)
  {
    IsAsciiSpace(b) || b == '\U{85}' || b == '\U{A0}'
  }

  /** The index of the first byte of `s` at or after `lo` that is not white space, or `|s|`. */
  function SkipSpace(s: string, lo: nat): (k: nat)
    requires lo <= |s|
    ensures lo <= k <= |s|
    ensures forall i :: lo <= i < k ==> IsAsciiSpace(s[i])
    ensures k < |s| ==> !IsAsciiSpace(s[k])
    decreases |s| - lo
  {
    if lo < |s| && IsAsciiSpace(s[lo]) then SkipSpace(s, lo + 1) else lo
  }

  /** The end of `s[lo..hi]` once trailing white space is dropped. */
  function BackSpace(s: string, lo: nat, hi: nat): (k: nat)
    requires lo <= hi <= |s|
    ensures lo <= k <= hi
    ensures forall i :: k <= i < hi ==> IsAsciiSpace(s[i])
    ensures k > lo ==> !IsAsciiSpace(s[k - 1])
    decreases hi
  {
    if hi > lo && IsAsciiSpace(s[hi - 1]) then BackSpace(s, lo, hi - 1) else hi
  }

  /** `strings.TrimSpace` on ASCII: leading and trailing white space removed. */
  function TrimSpace(s: string): (r: string)
    ensures exists lo, hi ::
              && 0 <= lo <= hi <= |s| && r == s[lo..hi]
              && (forall i :: 0 <= i < lo ==> IsAsciiSpace(s[i]))
              && (forall i :: hi <= i < |s| ==> IsAsciiSpace(s[i]))
    ensures |r| > 0 ==> !IsAsciiSpace(r[0]) && !IsAsciiSpace(r[|r| - 1])
    ensures |r| == 0 ==> forall i :: 0 <= i < |s| ==> IsAsciiSpace(s[i])
    ensures (|s| == 0 || (!IsAsciiSpace(s[0]) && !IsAsciiSpace(s[|s| - 1]))) ==> r == s
  {
    var lo := SkipSpace(s, 0);
    var hi := BackSpace(s, lo, |s|);
    s[lo..hi]
  }

  // Numerals: `strconv.Itoa` (base 10) and `fmt`'s `%X` (base 16, upper case).

  /** The digit for `d` < 16: '0'..'9', then upper-case 'A'..'F'. */
  function DigitChar(d: nat): (c: char)
    requires d < 16
    ensures DigitValue(c) == d
    ensures '0' <= c <= '9' || 'A' <= c <= 'F'
  {
    if d < 10 then ('0' as int + d) as char else ('A' as int + d - 10) as char
  }

  /** The value of one digit in the given base: '0'..'9', 'A'..'F' and 'a'..'f'. */
  function DigitValue(c: char): int
  {
    if '0' <= c <= '9' then c as int - '0' as int
    else if 'A' <= c <= 'F' then c as int - 'A' as int + 10
    else if 'a' <= c <= 'f' then c as int - 'a' as int + 10
    else -1
  }

  predicate IsDigit(c: char, base: nat)
  {
    0 <= DigitValue(c) < base
  }

  /** `n` written in `base` with no leading zeros (and "0" for zero). */
  function Format(n: nat, base: nat): (r: string)
    requires 2 <= base <= 16
    ensures |r| > 0
    ensures forall i :: 0 <= i < |r| ==> IsDigit(r[i], base) && !('a' <= r[i] <= 'f')
    ensures n > 0 ==> r[0] != '0'
  {
    if n < base then [DigitChar(n)]
    else
      DivMod(n, base);
      var f := Format(n / base, base);
      var r := f + [DigitChar(n % base)];
      assert r[0] == f[0];
      r
  }

  /** The value of a numeral in `base` (most significant digit first). */
  function Value(s: string, base: nat): int
  {
    if |s| == 0 then 0
    else Value(s[..|s| - 1], base) * base + DigitValue(s[|s| - 1])
  }

  lemma DivMod(n: nat, base: nat)
    requires 2 <= base <= n
    ensures 1 <= n / base < n && n == (n / base) * base + n % base && 0 <= n % base < base
  {
  }

  lemma {:induction false} ValueFormat(n: nat, base: nat)
    requires 2 <= base <= 16
    ensures Value(Format(n, base), base) == n
    decreases n
  {
    if n < base {
      assert Format(n, base)[..0] == [];
    } else {
      DivMod(n, base);
      var q, d := n / base, n % base;
      var f := Format(q, base);
      var g := f + [DigitChar(d)];
      assert g[..|g| - 1] == f;
      assert Value(g, base) == Value(f, base) * base + d;
      ValueFormat(q, base);
    }
  }

  /** Only the digits '0'..'9'. */
  predicate Decimal(s: string)
  {
    forall i :: 0 <= i < |s| ==> '0' <= s[i] <= '9'
  }

  /** `strconv.Itoa`: decimal, with a leading '-' for negative numbers. */
  function Itoa(n: int): (r: string)
    ensures |r| > 0
    ensures n == 0 ==> r == "0"
    ensures n >= 0 ==> Value(r, 10) == n && Decimal(r) && (n > 0 ==> r[0] != '0')
    ensures n < 0 ==> |r| > 1 && r[0] == '-' && Value(r[1..], 10) == -n && Decimal(r[1..]) && r[1] != '0'
  {
    var m: nat := if n < 0 then -n else n;
    DecimalFormat(m);
    var f := Format(m, 10);
    if n < 0 then
      assert ("-" + f)[1..] == f;
      "-" + f
    else f
  }

  /** Base 10 uses only the digits '0'..'9'. */
  lemma DecimalFormat(m: nat)
    ensures Decimal(Format(m, 10)) && Value(Format(m, 10), 10) == m
  {
    ValueFormat(m, 10);
    var f := Format(m, 10);
    forall i | 0 <= i < |f|
      ensures '0' <= f[i] <= '9'
    {
      assert IsDigit(f[i], 10) && !('a' <= f[i] <= 'f');
    }
  }

  /** `fmt.Sprintf("%X", n)`: upper-case hexadecimal. */
  function Hex(n: nat): (r: string)
    ensures |r| > 0 && Value(r, 16) == n
    ensures n == 0 ==> r == "0"
    ensures forall i :: 0 <= i < |r| ==> '0' <= r[i] <= '9' || 'A' <= r[i] <= 'F'
    ensures n > 0 ==> r[0] != '0'
  {
    ValueFormat(n, 16);
    Format(n, 16)
  }
}
