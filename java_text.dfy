/** The java.lang.String operations and java.util.regex rewrites the core relies on,
    each modelled on `string` (a sequence of UTF-16 code units, one `char` each). */
module JavaText {

  import opened Wrappers

  // ---------------------------------------------------------------------------
  // Character classes
  // ---------------------------------------------------------------------------

  /** The characters String.trim removes: every code unit up to U+0020. */
  predicate IsTrimmable(c: char) { c <= ' ' }

  /** The regex class \d without UNICODE_CHARACTER_CLASS: ASCII digits only. */
  predicate IsDigit(c: char) { '0' <= c <= '9' }

  predicate IsAsciiUpper(c: char) { 'A' <= c <= 'Z' }

  /** The regex class [_-]. */
  predicate IsSep(c: char) { c == '_' || c == '-' }

  /** The line terminators of java.util.regex when UNIX_LINES is off. */
  predicate IsLineTerminator(c: char) {
    c == '\n' || c == '\r' || c == '\U{0085}' || c == '\U{2028}' || c == '\U{2029}'
  }

  predicate NoLineTerminator(s: string) {
    forall i :: 0 <= i < |s| ==> !IsLineTerminator(s[i])
  }

  /** `s` holds "__" at index i. */
  predicate DoubleUnderscoreAt(s: string, i: int) {
    0 <= i < |s| - 1 && s[i] == '_' && s[i + 1] == '_'
  }

  /** No two adjacent underscores. */
  predicate NoDoubleUnderscore(s: string) {
    forall i :: 0 <= i < |s| ==> !DoubleUnderscoreAt(s, i)
  }

  // ---------------------------------------------------------------------------
  // trim, isEmpty-after-trim
  // ---------------------------------------------------------------------------

  /** The first index at or after `st` that holds a code unit above U+0020, or |s|. */
  function TrimStartFrom(s: string, st: nat): (i: nat)
    requires st <= |s|
    ensures st <= i <= |s|
    ensures forall k :: st <= k < i ==> IsTrimmable(s[k])
    ensures i == |s| || !IsTrimmable(s[i])
    decreases |s| - st
  {
    if st < |s| && IsTrimmable(s[st]) then TrimStartFrom(s, st + 1) else st
  }

  /** The end, no lower than `st`, of `s[..len]` with its trailing code units up to U+0020
      removed. */
  function TrimEndFrom(s: string, st: nat, len: nat): (j: nat)
    requires st <= len <= |s|
    ensures st <= j <= len
    ensures forall k :: j <= k < len ==> IsTrimmable(s[k])
    ensures j == st || !IsTrimmable(s[j - 1])
    decreases len
  {
    if st < len && IsTrimmable(s[len - 1]) then TrimEndFrom(s, st, len - 1) else len
  }

  /** String.trim: `st` moves past the leading code units up to U+0020, then `len` moves back
      over the trailing ones (never below `st`), and the result is `s[st..len]`. The
      result is the slice of `s` between two runs of such code units, and it neither starts
      nor ends with one, which fixes it. */
  function Trim(s: string): (r: string)
    ensures r == [] <==> forall k :: 0 <= k < |s| ==> IsTrimmable(s[k])
    ensures r != [] ==> !IsTrimmable(r[0]) && !IsTrimmable(r[|r| - 1])
    ensures |r| <= |s|
    ensures s == [] || (!IsTrimmable(s[0]) && !IsTrimmable(s[|s| - 1])) ==> r == s
    ensures var i := TrimStartFrom(s, 0);
      && i + |r| <= |s| && r == s[i..i + |r|]
      && (forall k :: 0 <= k < i ==> IsTrimmable(s[k]))
      && (forall k :: i + |r| <= k < |s| ==> IsTrimmable(s[k]))
  {
    var st := TrimStartFrom(s, 0);
    var len := TrimEndFrom(s, st, |s|);
    s[st..len]
  }

  /** `s.trim().isEmpty()`. */
  predicate IsBlank(s: string) { Trim(s) == [] }

  lemma BlankIffAllTrimmable(s: string)
    ensures IsBlank(s) <==> forall k :: 0 <= k < |s| ==> IsTrimmable(s[k])
  {
  }

  // ---------------------------------------------------------------------------
  // Per-character rewrites
  // ---------------------------------------------------------------------------

  /** Lowercasing of one code unit, on the ASCII letters only. */
  function LowerChar(c: char): (d: char)
    ensures !IsAsciiUpper(d)
    ensures IsAsciiUpper(c) ==> d as int == c as int + 32
    ensures !IsAsciiUpper(c) ==> d == c
  {
    if IsAsciiUpper(c) then (c as int + 32) as char else c
  }

  /** String.toLowerCase restricted to ASCII. */
  function ToLowerCase(s: string): (r: string)
    ensures |r| == |s|
    ensures forall i :: 0 <= i < |s| ==> r[i] == LowerChar(s[i])
  {
    seq(|s|, i requires 0 <= i < |s| => LowerChar(s[i]))
  }

  /** String.replace(CharSequence, CharSequence) with one-character operands:
      every `from` becomes `to`, everything else stays in place. */
  function ReplaceChar(s: string, from: char, to: char): (r: string)
    ensures |r| == |s|
    ensures forall i :: 0 <= i < |s| ==> r[i] == if s[i] == from then to else s[i]
  {
    seq(|s|, i requires 0 <= i < |s| => if s[i] == from then to else s[i])
  }

  /** `replaceAll("\\d+", "")`: every run of digits is deleted, so every digit is. */
  function RemoveDigits(s: string): (r: string)
    ensures |r| <= |s|
    ensures forall i :: 0 <= i < |r| ==> !IsDigit(r[i])
    ensures (forall i :: 0 <= i < |s| ==> !IsDigit(s[i])) ==> r == s
  {
    if s == [] then []
    else if IsDigit(s[0]) then RemoveDigits(s[1..])
    else [s[0]] + RemoveDigits(s[1..])
  }

  /** `replaceAll("_+", "_")`: every run of underscores becomes one underscore. */
  function CollapseUnderscores(s: string): (r: string)
    ensures |r| <= |s|
    ensures r == [] <==> s == []
    ensures r != [] ==> r[0] == s[0] && r[|r| - 1] == s[|s| - 1]
  {
    if |s| <= 1 then s
    else if s[0] == '_' && s[1] == '_' then CollapseUnderscores(s[1..])
    else [s[0]] + CollapseUnderscores(s[1..])
  }

  /** Collapsing works piecewise wherever the cut does not fall inside a run of "_". With
      CollapseRun and the one-character case (kept as it is) this fixes the result on every
      string: cut it into maximal runs of "_" and single other characters. */
  lemma {:induction false} CollapseAppend(a: string, b: string)
    requires a == [] || b == [] || a[|a| - 1] != '_' || b[0] != '_'
    ensures CollapseUnderscores(a + b) == CollapseUnderscores(a) + CollapseUnderscores(b)
    decreases |a|
  {
    if a == [] {
      assert a + b == b;
    } else if b == [] {
      assert a + b == a;
    } else if |a| == 1 {
      assert (a + b)[0] == a[0] && (a + b)[1] == b[0] && (a + b)[1..] == b;
    } else {
      assert (a + b)[0] == a[0] && (a + b)[1] == a[1] && (a + b)[1..] == a[1..] + b;
      CollapseAppend(a[1..], b);
    }
  }

  /** A run of n >= 1 underscores collapses to one. */
  lemma {:induction false} CollapseRun(n: nat)
    requires n >= 1
    ensures CollapseUnderscores(seq(n, _ => '_')) == "_"
  {
    if n > 1 {
      assert seq(n, _ => '_')[1..] == seq(n - 1, _ => '_');
      CollapseRun(n - 1);
    }
  }

  /** Collapsing leaves no "__" behind, and changes nothing in a string that has none. */
  lemma {:induction false} CollapseNoDouble(s: string)
    ensures NoDoubleUnderscore(CollapseUnderscores(s))
    ensures NoDoubleUnderscore(s) ==> CollapseUnderscores(s) == s
  {
    if |s| > 1 {
      var t := CollapseUnderscores(s[1..]);
      CollapseNoDouble(s[1..]);
      if !(s[0] == '_' && s[1] == '_') {
        var r := [s[0]] + t;
        assert t[0] == s[1];
        forall i | 0 <= i < |r| ensures !DoubleUnderscoreAt(r, i) {
          if i > 0 {
            assert r[i] == t[i - 1] && (i + 1 < |r| ==> r[i + 1] == t[i]);
            assert !DoubleUnderscoreAt(t, i - 1);
          }
        }
        if NoDoubleUnderscore(s) {
          assert forall i | 0 <= i < |s| - 1 :: !DoubleUnderscoreAt(s[1..], i) by {
            forall i | 0 <= i < |s| - 1 ensures !DoubleUnderscoreAt(s[1..], i) {
              assert !DoubleUnderscoreAt(s, i + 1);
            }
          }
        }
      } else {
        assert DoubleUnderscoreAt(s, 0);
      }
    }
  }

  /** A string of `_`/`-` only. */
  predicate IsSepRun(s: string) {
    forall i :: 0 <= i < |s| ==> IsSep(s[i])
  }

  /** Every character of `s` has property `P`. */
  ghost predicate All(s: string, P: char -> bool) {
    forall i :: 0 <= i < |s| ==> P(s[i])
  }

  /** Deleting digits or collapsing underscores introduces no new character. */
  lemma {:induction false} RemoveDigitsKeeps(s: string, P: char -> bool)
    requires All(s, P)
    ensures All(RemoveDigits(s), P)
  {
    if s != [] {
      RemoveDigitsKeeps(s[1..], P);
    }
  }

  /** Deleting digits works piecewise, and leaves nothing of a string of digits. */
  lemma {:induction false} RemoveDigitsAppend(s: string, t: string)
    ensures RemoveDigits(s + t) == RemoveDigits(s) + RemoveDigits(t)
    decreases |s|
  {
    if s == [] {
      assert s + t == t;
    } else {
      assert (s + t)[0] == s[0] && (s + t)[1..] == s[1..] + t;
      RemoveDigitsAppend(s[1..], t);
    }
  }

  lemma {:induction false} RemoveDigitsAllDigits(s: string)
    requires forall i :: 0 <= i < |s| ==> IsDigit(s[i])
    ensures RemoveDigits(s) == []
  {
    if s != [] {
      RemoveDigitsAllDigits(s[1..]);
    }
  }

  lemma {:induction false} CollapseKeeps(s: string, P: char -> bool)
    requires All(s, P)
    ensures All(CollapseUnderscores(s), P)
  {
    if |s| > 1 {
      CollapseKeeps(s[1..], P);
    }
  }

  /** A suffix of a string without "__" has none either, and keeps every character class. */
  lemma NoDoubleSuffix(s: string, lo: nat)
    requires lo <= |s| && NoDoubleUnderscore(s)
    ensures NoDoubleUnderscore(s[lo..])
  {
    var t := s[lo..];
    forall i | 0 <= i < |t| ensures !DoubleUnderscoreAt(t, i) {
      assert !DoubleUnderscoreAt(s, lo + i);
    }
  }

  lemma AllSuffix(s: string, lo: nat, P: char -> bool)
    requires lo <= |s| && All(s, P)
    ensures All(s[lo..], P)
  {
    var t := s[lo..];
    forall i | 0 <= i < |t| ensures P(t[i]) {
      assert t[i] == s[lo + i];
    }
  }

  // ---------------------------------------------------------------------------
  // Anchored rewrites
  // ---------------------------------------------------------------------------

  /** `replaceAll("^[_-]+", "")`: without MULTILINE, `^` matches only at index 0, so the one
      possible match is the maximal run of `_`/`-` that starts the string. */
  function StripLeadingSeps(s: string): (r: string)
    ensures |r| <= |s| && r == s[|s| - |r|..]
    ensures forall k :: 0 <= k < |s| - |r| ==> IsSep(s[k])
    ensures r == [] || !IsSep(r[0])
  {
    if s != [] && IsSep(s[0]) then StripLeadingSeps(s[1..]) else s
  }

  /** Deletes the maximal run of `_`/`-` that ends the string. */
  function DropTrailingSeps(s: string): (r: string)
    ensures |r| <= |s| && r == s[..|r|]
    ensures forall k :: |r| <= k < |s| ==> IsSep(s[k])
    ensures r == [] || !IsSep(r[|r| - 1])
  {
    if s != [] && IsSep(s[|s| - 1]) then DropTrailingSeps(s[..|s| - 1]) else s
  }

  /** The leading strip stops inside a text that has a kept character, so what follows that
      text is untouched. */
  lemma {:induction false} StripLeadingBeforeKept(p: string, q: string)
    requires p != [] && !IsSep(p[|p| - 1])
    ensures StripLeadingSeps(p + q) == StripLeadingSeps(p) + q
  {
    assert (p + q)[0] == p[0];
    if IsSep(p[0]) {
      assert (p + q)[1..] == p[1..] + q;
      StripLeadingBeforeKept(p[1..], q);
    }
  }

  /** A leading run of separators is stripped whole when a kept character (or nothing) follows. */
  lemma {:induction false} StripLeadingSepRun(s: string, q: string)
    requires IsSepRun(s)
    requires q == [] || !IsSep(q[0])
    ensures StripLeadingSeps(s + q) == q
  {
    if s == [] {
      assert s + q == q;
    } else {
      assert (s + q)[0] == s[0] && (s + q)[1..] == s[1..] + q;
      assert IsSepRun(s[1..]) by {
        assert forall k :: 0 <= k < |s| - 1 ==> s[1..][k] == s[k + 1];
      }
      StripLeadingSepRun(s[1..], q);
    }
  }

  /** The trailing strip stops inside a text that starts with a kept character, so what
      precedes that text is untouched. */
  lemma {:induction false} DropTrailingAfterKept(p: string, q: string)
    requires q != [] && !IsSep(q[0])
    ensures DropTrailingSeps(p + q) == p + DropTrailingSeps(q)
    decreases |q|
  {
    var s := p + q;
    assert s[|s| - 1] == q[|q| - 1];
    if IsSep(q[|q| - 1]) {
      var q' := q[..|q| - 1];
      assert s[..|s| - 1] == p + q';
      DropTrailingAfterKept(p, q');
    }
  }

  /** A trailing run of separators is dropped whole when a kept character (or nothing) precedes. */
  lemma {:induction false} DropTrailingSepRun(p: string, s: string)
    requires IsSepRun(s)
    requires p == [] || !IsSep(p[|p| - 1])
    ensures DropTrailingSeps(p + s) == p
    decreases |s|
  {
    if s == [] {
      assert p + s == p;
    } else {
      var t := p + s;
      assert t[|t| - 1] == s[|s| - 1];
      assert t[..|t| - 1] == p + s[..|s| - 1];
      assert IsSepRun(s[..|s| - 1]) by {
        assert forall k :: 0 <= k < |s| - 1 ==> s[..|s| - 1][k] == s[k];
      }
      DropTrailingSepRun(p, s[..|s| - 1]);
    }
  }

  /** Without MULTILINE, the regex anchor `$` matches at the end of the input and also just
      before a line terminator that ends the input ("\r\n" counting as one). This is the length
      of that final terminator: `$` matches at exactly the two positions |s| and |s| - k. */
  function EndAnchorSuffix(s: string): (k: nat)
    ensures k <= 2 && k <= |s|
    ensures forall i :: |s| - k <= i < |s| ==> IsLineTerminator(s[i])
    ensures k == 0 <==> s == [] || !IsLineTerminator(s[|s| - 1])
    ensures k == 2 <==> |s| >= 2 && s[|s| - 2] == '\r' && s[|s| - 1] == '\n'
  {
    if |s| >= 2 && s[|s| - 2] == '\r' && s[|s| - 1] == '\n' then 2
    else if |s| >= 1 && IsLineTerminator(s[|s| - 1]) then 1
    else 0
  }

  /** The part of `s` before the final terminator that `$` may precede. */
  function BeforeEndAnchor(s: string): (b: string)
    ensures b + FinalTerminator(s) == s
  {
    s[..|s| - EndAnchorSuffix(s)]
  }

  /** The final terminator itself ("" when `s` does not end in one). */
  function FinalTerminator(s: string): (t: string)
    ensures forall i :: 0 <= i < |t| ==> IsLineTerminator(t[i])
    ensures NoLineTerminator(s) ==> t == []
  {
    s[|s| - EndAnchorSuffix(s)..]
  }

  /** `replaceAll("[_-]+$", "")`. A match has to end at a position where `$` holds, and since
      neither `_` nor `-` is a line terminator that position is |s| - EndAnchorSuffix(s); the
      leftmost match is the maximal run of `_`/`-` ending there, and no second match remains
      (what follows it is the terminator). */
  function StripTrailingSeps(s: string): (r: string)
    ensures r == DropTrailingSeps(BeforeEndAnchor(s)) + FinalTerminator(s)
    ensures |r| <= |s|
    ensures NoLineTerminator(s) ==> r == DropTrailingSeps(s)
  {
    DropTrailingSeps(BeforeEndAnchor(s)) + FinalTerminator(s)
  }

  /** A text whose last character is not a line terminator has `$` only at its end, so the
      trailing strip is the plain one. */
  lemma StripTrailingAtVisibleEnd(s: string)
    requires s != [] && !IsLineTerminator(s[|s| - 1])
    ensures StripTrailingSeps(s) == DropTrailingSeps(s)
  {
    assert BeforeEndAnchor(s) == s && FinalTerminator(s) == [];
  }

  // ---------------------------------------------------------------------------
  // Searching
  // ---------------------------------------------------------------------------

  /** `p` occurs in `s` starting at index `i`. */
  predicate OccursAt(s: string, p: string, i: int) {
    0 <= i && i + |p| <= |s| && s[i..i + |p|] == p
  }

  /** `i` is the first index at which `p` occurs in `s`. */
  predicate FirstOccursAt(s: string, p: string, i: int) {
    OccursAt(s, p, i) && forall j :: 0 <= j < i ==> !OccursAt(s, p, j)
  }

  lemma OccursAtTail(s: string, p: string)
    requires |s| > 0
    ensures forall i :: i >= 1 ==> (OccursAt(s, p, i) <==> OccursAt(s[1..], p, i - 1))
    ensures forall j :: j >= 0 ==> (OccursAt(s[1..], p, j) <==> OccursAt(s, p, j + 1))
  {
    forall i | i >= 1 ensures OccursAt(s, p, i) <==> OccursAt(s[1..], p, i - 1) {
      if i + |p| <= |s| {
        assert forall m :: i <= m < i + |p| ==> s[1..][m - 1] == s[m];
        assert s[i..i + |p|] == s[1..][i - 1..i - 1 + |p|];
      }
    }
    forall j | j >= 0 ensures OccursAt(s[1..], p, j) <==> OccursAt(s, p, j + 1) {
      if j + 1 + |p| <= |s| {
        assert forall m :: j + 1 <= m < j + 1 + |p| ==> s[1..][m - 1] == s[m];
        assert s[j + 1..j + 1 + |p|] == s[1..][j..j + |p|];
      }
    }
  }

  /** `replaceFirst(p, "")` for a pattern that matches the literal `p`: the first occurrence of
      `p` is deleted; a string without one is returned as it is. */
  function RemoveFirst(s: string, p: string): (r: string)
    requires p != []
    ensures |r| <= |s|
    ensures (forall i :: !OccursAt(s, p, i)) ==> r == s
    ensures forall i :: FirstOccursAt(s, p, i) ==> r == s[..i] + s[i + |p|..]
    decreases |s|
  {
    if |s| < |p| then s
    else if s[..|p|] == p then
      assert OccursAt(s, p, 0);
      s[|p|..]
    else
      RemoveFirstShift(s, p);
      [s[0]] + RemoveFirst(s[1..], p)
  }

  /** An occurrence of `p` starts with the first character of `p`. */
  lemma OccursAtHead(s: string, p: string)
    requires p != []
    ensures forall i :: OccursAt(s, p, i) ==> s[i] == p[0]
  {
    forall i | OccursAt(s, p, i) ensures s[i] == p[0] {
      assert s[i..i + |p|][0] == s[i];
    }
  }

  /** `p` cannot occur where its first character does not. */
  lemma NoOccurrenceWithoutHead(s: string, p: string)
    requires p != [] && forall j :: 0 <= j < |s| ==> s[j] != p[0]
    ensures forall i :: !OccursAt(s, p, i)
  {
    OccursAtHead(s, p);
  }

  lemma FirstOccurrence(s: string, p: string, i: int)
    requires p != [] && OccursAt(s, p, i)
    requires forall j :: 0 <= j < i ==> s[j] != p[0]
    ensures FirstOccursAt(s, p, i)
  {
    OccursAtHead(s, p);
  }

  lemma RemoveFirstShift(s: string, p: string)
    requires |s| >= |p| > 0 && s[..|p|] != p
    ensures (forall i :: !OccursAt(s, p, i)) ==> forall j :: !OccursAt(s[1..], p, j)
    ensures forall i :: FirstOccursAt(s, p, i) ==>
      i >= 1 && FirstOccursAt(s[1..], p, i - 1) &&
      s[..i] + s[i + |p|..] == [s[0]] + (s[1..][..i - 1] + s[1..][i - 1 + |p|..])
  {
    OccursAtTail(s, p);
    assert !OccursAt(s, p, 0);
    forall i | FirstOccursAt(s, p, i)
      ensures i >= 1 && FirstOccursAt(s[1..], p, i - 1)
      ensures s[..i] + s[i + |p|..] == [s[0]] + (s[1..][..i - 1] + s[1..][i - 1 + |p|..])
    {
      assert i >= 1;
      forall j | 0 <= j < i - 1 ensures !OccursAt(s[1..], p, j) {
        assert !OccursAt(s, p, j + 1);
      }
    }
  }

  /** String.lastIndexOf(char): the index of the last `c`, or -1. */
  function LastIndexOf(s: string, c: char): (r: int)
    ensures -1 <= r < |s|
    ensures r >= 0 ==> s[r] == c
    ensures forall i :: r < i < |s| ==> s[i] != c
  {
    if s == [] then -1
    else if s[|s| - 1] == c then |s| - 1
    else LastIndexOf(s[..|s| - 1], c)
  }

  /** String.substring(begin, end), which throws StringIndexOutOfBoundsException unless
      0 <= begin <= end <= length. */
  function Substring(s: string, begin: int, end: int): (r: Option<string>)
    ensures r.Some? <==> 0 <= begin <= end <= |s|
    ensures r.Some? ==> |r.value| == end - begin && r.value + s[end..] == s[begin..]
  {
    if 0 <= begin <= end <= |s| then Some(s[begin..end]) else None
  }

  // ---------------------------------------------------------------------------
  // split
  // ---------------------------------------------------------------------------

  /** The parts joined back with `sep` between adjacent ones. */
  function Join(parts: seq<string>, sep: char): string
  {
    if |parts| == 0 then ""
    else if |parts| == 1 then parts[0]
    else parts[0] + [sep] + Join(parts[1..], sep)
  }

  lemma JoinConsChar(c: char, parts: seq<string>, sep: char)
    requires |parts| >= 1
    ensures Join([[c] + parts[0]] + parts[1..], sep) == [c] + Join(parts, sep)
  {
    var ps := [[c] + parts[0]] + parts[1..];
    if |parts| > 1 {
      assert ps[1..] == parts[1..];
    }
  }

  /** Every piece of `s` between separators, empty ones included; never an empty list. */
  function SplitAll(s: string, sep: char): (parts: seq<string>)
    ensures |parts| >= 1
    ensures forall k :: 0 <= k < |parts| ==> sep !in parts[k]
    ensures Join(parts, sep) == s
    ensures sep !in s ==> parts == [s]
    decreases |s|
  {
    if s == [] then [""]
    else
      var rest := SplitAll(s[1..], sep);
      if s[0] == sep then
        assert s == [sep] + s[1..];
        [""] + rest
      else
        JoinConsChar(s[0], rest, sep);
        assert s == [s[0]] + s[1..];
        [[s[0]] + rest[0]] + rest[1..]
  }

  /** Deletes the empty strings at the end of a list. */
  function DropTrailingEmpty(parts: seq<string>): (r: seq<string>)
    ensures |r| <= |parts| && r == parts[..|r|]
    ensures forall k :: |r| <= k < |parts| ==> parts[k] == ""
    ensures r == [] || r[|r| - 1] != ""
  {
    if parts != [] && parts[|parts| - 1] == "" then DropTrailingEmpty(parts[..|parts| - 1]) else parts
  }

  /** A string made of `sep` only. */
  predicate AllSep(s: string, sep: char) {
    forall i :: 0 <= i < |s| ==> s[i] == sep
  }

  lemma JoinTrailingEmpty(r: seq<string>, n: nat, sep: char)
    ensures var j := Join(r + seq(n, _ => ""), sep);
      |Join(r, sep)| <= |j| && j[..|Join(r, sep)|] == Join(r, sep) && AllSep(j[|Join(r, sep)|..], sep)
    decreases |r|, n
  {
    var e := seq(n, _ => "");
    if |r| == 0 {
      assert r + e == e;
      JoinEmpties(n, sep);
    } else if |r| == 1 {
      if n > 0 {
        assert (r + e)[1..] == seq(n, _ => "");
        JoinEmpties(n, sep);
      } else {
        assert r + e == r;
      }
    } else {
      assert (r + e)[1..] == r[1..] + e;
      JoinTrailingEmpty(r[1..], n, sep);
    }
  }

  lemma JoinEmpties(n: nat, sep: char)
    ensures AllSep(Join(seq(n, _ => ""), sep), sep)
    ensures n > 0 ==> |Join(seq(n, _ => ""), sep)| == n - 1
  {
    if n > 1 {
      assert seq(n, _ => "")[1..] == seq(n - 1, _ => "");
      JoinEmpties(n - 1, sep);
    }
  }

  /** String.split(regex) with the one-character regex `sep` and limit 0: the pieces between
      separators, with the trailing empty pieces removed; when `sep` does not occur at all the
      result is the whole string alone, even when it is "". */
  function Split(s: string, sep: char): (r: seq<string>)
    ensures forall k :: 0 <= k < |r| ==> sep !in r[k]
    ensures r == [] || r[|r| - 1] != "" || (s == "" && r == [""])
    ensures s == "" ==> r == [""]
    ensures |Join(r, sep)| <= |s| && s[..|Join(r, sep)|] == Join(r, sep)
    ensures AllSep(s[|Join(r, sep)|..], sep)
  {
    if sep !in s then [s]
    else
      var all := SplitAll(s, sep);
      var r := DropTrailingEmpty(all);
      assert all == r + seq(|all| - |r|, _ => "");
      JoinTrailingEmpty(r, |all| - |r|, sep);
      r
  }

  /** A piece free of `sep` followed by `sep` splits off as the first piece. */
  lemma {:induction false} SplitAllAfterPiece(a: string, t: string, sep: char)
    requires sep !in a
    ensures SplitAll(a + [sep] + t, sep) == [a] + SplitAll(t, sep)
    decreases |a|
  {
    var s := a + [sep] + t;
    if a == [] {
      assert s[0] == sep && s[1..] == t;
    } else {
      assert s[0] == a[0] && s[1..] == a[1..] + [sep] + t;
      SplitAllAfterPiece(a[1..], t, sep);
      assert [a[0]] + a[1..] == a;
    }
  }

  /** Two pieces around one separator come back as they are, the second being non-empty. */
  lemma SplitTwoPieces(a: string, b: string, sep: char)
    requires sep !in a && sep !in b && b != ""
    ensures Split(a + [sep] + b, sep) == [a, b]
  {
    var s := a + [sep] + b;
    assert s[|a|] == sep;
    SplitAllAfterPiece(a, b, sep);
    assert SplitAll(s, sep) == [a, b];
  }

  /** A trailing separator after them changes nothing. */
  lemma SplitTwoPiecesTrailing(a: string, b: string, sep: char)
    requires sep !in a && sep !in b && b != ""
    ensures Split(a + [sep] + b + [sep], sep) == [a, b]
  {
    var s := a + [sep] + b + [sep];
    assert s == a + [sep] + (b + [sep]) && s[|a|] == sep;
    SplitAllAfterPiece(a, b + [sep], sep);
    assert b + [sep] == b + [sep] + [];
    SplitAllAfterPiece(b, [], sep);
    assert SplitAll(s, sep) == [a, b, ""];
  }

  /** A lone separator splits into nothing at all. */
  lemma SplitSeparatorOnly(sep: char)
    ensures Split([sep], sep) == []
  {
    assert [sep] == [] + [sep] + [];
    SplitAllAfterPiece([], [], sep);
  }

  // ---------------------------------------------------------------------------
  // Decimal rendering of a long (string concatenation "..." + id)
  // ---------------------------------------------------------------------------

  function DigitChar(d: nat): (c: char)
    requires d < 10
    ensures IsDigit(c) && DigitValue(c) == d
  {
    (d + '0' as int) as char
  }

  function NatString(n: nat): (r: string)
    ensures r != [] && forall i :: 0 <= i < |r| ==> IsDigit(r[i])
    decreases n
  {
    if n < 10 then [DigitChar(n)] else NatString(n / 10) + [DigitChar(n % 10)]
  }

  /** Long.toString: an optional minus sign and the decimal digits. */
  function DecimalString(n: int): string
  {
    if n < 0 then "-" + NatString(-n) else NatString(n)
  }

  /** The value of a string of decimal digits. */
  function NatValue(s: string): nat
    requires forall i :: 0 <= i < |s| ==> IsDigit(s[i])
  {
    if s == [] then 0 else 10 * NatValue(s[..|s| - 1]) + DigitValue(s[|s| - 1])
  }

  function DigitValue(c: char): (d: nat)
    requires IsDigit(c)
    ensures d < 10
  {
    c as int - '0' as int
  }

  /** Long.parseLong on what DecimalString produces. */
  function DecimalValue(s: string): int
    requires s != []
    requires forall i :: (if s[0] == '-' then 1 else 0) <= i < |s| ==> IsDigit(s[i])
  {
    if s[0] == '-' then -(NatValue(s[1..]) as int) else NatValue(s) as int
  }

  lemma {:induction false} NatStringRoundTrip(n: nat)
    ensures NatValue(NatString(n)) == n
    decreases n
  {
    if n >= 10 {
      var s := NatString(n);
      assert s[..|s| - 1] == NatString(n / 10);
      NatStringRoundTrip(n / 10);
    }
  }

  /** DecimalString loses nothing: reading it back gives the number. */
  lemma DecimalStringRoundTrip(n: int)
    ensures DecimalString(n) != [] && DecimalValue(DecimalString(n)) == n
  {
    var s := DecimalString(n);
    if n < 0 {
      assert s[0] == '-' && s[1..] == NatString(-n);
      NatStringRoundTrip(-n);
    } else {
      assert s == NatString(n) && IsDigit(s[0]);
      NatStringRoundTrip(n);
    }
  }
}
