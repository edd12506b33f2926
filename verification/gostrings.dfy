/**
 * The parts of Go's `strings` package that the converter relies on:
 * `Split` on a one-character separator, `Join`, `TrimSpace` and `Trim`
 * with a one-character cut set. Strings are sequences of code points.
 */
module GoStrings {

  /** Go's unicode.IsSpace: the characters strings.TrimSpace removes. */
  predicate IsSpace(c: char) {
    || c == ' ' || c == '\t' || c == '\n' || c == '\r'
    || c == '\U{B}' || c == '\U{C}' || c == '\U{85}' || c == '\U{A0}'
    || c == '\U{1680}' || ('\U{2000}' <= c <= '\U{200A}')
    || c == '\U{2028}' || c == '\U{2029}' || c == '\U{202F}'
    || c == '\U{205F}' || c == '\U{3000}'
  }

  /** The cut set "_" of `strings.Trim(cleaned, "_")`. */
  predicate IsUnderscore(c: char) {
    c == '_'
  }

  /** The first index at or after `i` whose character is not in the cut set, or |s|. */
  function FirstKept(s: string, cut: char -> bool, i: nat): (n: nat)
    requires i <= |s|
    ensures i <= n <= |s|
    ensures forall k | i <= k < n :: cut(s[k])
    ensures n < |s| ==> !cut(s[n])
    decreases |s| - i
  {
    if i == |s| || !cut(s[i]) then i else FirstKept(s, cut, i + 1)
  }

  /** The end of the longest run of cut characters that ends at `j` and stays at or after `lo`. */
  function LastKept(s: string, cut: char -> bool, lo: nat, j: nat): (n: nat)
    requires lo <= j <= |s|
    ensures lo <= n <= j
    ensures forall k | n <= k < j :: cut(s[k])
    ensures n > lo ==> !cut(s[n - 1])
    decreases j
  {
    if j == lo || !cut(s[j - 1]) then j else LastKept(s, cut, lo, j - 1)
  }

  /** Where the trimmed string starts. */
  function TrimStart(s: string, cut: char -> bool): nat {
    FirstKept(s, cut, 0)
  }

  /**
   * strings.Trim / strings.TrimSpace: the result is the infix of `s` left
   * once every leading and trailing `cut` character is gone.
   */
  function Trim(s: string, cut: char -> bool): (r: string)
    ensures var i := TrimStart(s, cut);
              && i + |r| <= |s| && r == s[i..i + |r|]
              && (forall k | 0 <= k < i :: cut(s[k]))
              && (forall k | i + |r| <= k < |s| :: cut(s[k]))
    ensures r == [] || (!cut(r[0]) && !cut(r[|r| - 1]))
  {
    var i := FirstKept(s, cut, 0);
    s[i..LastKept(s, cut, i, |s|)]
  }

  /** strings.TrimSpace: `s` without its leading and trailing white space. */
  function TrimSpace(s: string): (r: string)
    ensures r == [] || (!IsSpace(r[0]) && !IsSpace(r[|r| - 1]))
  {
    Trim(s, IsSpace)
  }

  /** strings.TrimSpace cuts only white space, from both ends, and keeps an infix of `s`. */
  lemma TrimSpaceInfix(s: string)
    ensures var r, i := TrimSpace(s), TrimStart(s, IsSpace);
              && i + |r| <= |s| && r == s[i..i + |r|]
              && (forall k | 0 <= k < i :: IsSpace(s[k]))
              && (forall k | i + |r| <= k < |s| :: IsSpace(s[k]))
  {
  }

  /** Trimming twice changes nothing more. */
  lemma TrimIdempotent(s: string, cut: char -> bool)
    ensures Trim(Trim(s, cut), cut) == Trim(s, cut)
  {
    var t := Trim(s, cut);
    assert FirstKept(t, cut, 0) == 0;
    assert LastKept(t, cut, 0, |t|) == |t|;
    assert t[0..|t|] == t;
  }

  /** Concatenation of strings is associative. */
  lemma AppendAssoc(a: string, b: string, c: string)
    ensures (a + b) + c == a + (b + c)
  {
  }

  /** Number of occurrences of `c` in `s`. */
  function Count(s: string, c: char): nat {
    if s == [] then 0 else (if s[0] == c then 1 else 0) + Count(s[1..], c)
  }

  /**
   * strings.Split(s, [sep]): the pieces of `s` between occurrences of `sep`;
   * the empty string splits into one empty piece.
   */
  function Split(s: string, sep: char): (parts: seq<string>)
    ensures |parts| == Count(s, sep) + 1
    ensures forall i | 0 <= i < |parts| :: sep !in parts[i]
    decreases |s|
  {
    if s == [] then [""]
    else
      var rest := Split(s[1..], sep);
      if s[0] == sep then [""] + rest
      else [[s[0]] + rest[0]] + rest[1..]
  }

  /** Total length of the parts. */
  function Lengths(parts: seq<string>): nat {
    if parts == [] then 0 else |parts[0]| + Lengths(parts[1..])
  }

  /**
   * strings.Join: the parts in order with `sep` between each two of them.
   * It begins with the first part.
   */
  function Join(parts: seq<string>, sep: string): (r: string)
    ensures |parts| > 0 ==> |parts[0]| <= |r| && r[..|parts[0]|] == parts[0]
    decreases |parts|
  {
    if |parts| == 0 then ""
    else if |parts| == 1 then parts[0]
    else parts[0] + sep + Join(parts[1..], sep)
  }

  /** A join is as long as its parts together, plus one separator fewer than there are parts. */
  lemma {:induction false} JoinLength(parts: seq<string>, sep: string)
    requires |parts| > 0
    ensures |Join(parts, sep)| == Lengths(parts) + (|parts| - 1) * |sep|
    decreases |parts|
  {
    if |parts| > 1 {
      var rest := parts[1..];
      JoinLength(rest, sep);
      assert Join(parts, sep) == parts[0] + sep + Join(rest, sep);
      assert Lengths(parts) == |parts[0]| + Lengths(rest);
      MoreSeparators(|rest|, |sep|);
    }
  }

  lemma MoreSeparators(n: nat, k: nat)
    requires n > 0
    ensures n * k == k + (n - 1) * k
  {
  }

  /** Joining the pieces back with the separator gives the original string. */
  lemma {:induction false} JoinSplit(s: string, sep: char)
    ensures Join(Split(s, sep), [sep]) == s
    decreases |s|
  {
    if s != [] {
      JoinSplit(s[1..], sep);
      var rest := Split(s[1..], sep);
      if s[0] == sep {
        assert Split(s, sep) == [""] + rest;
        assert Join([""] + rest, [sep]) == "" + [sep] + Join(rest, [sep]);
      } else if |rest| == 1 {
        assert Split(s, sep) == [[s[0]] + rest[0]];
      } else {
        var parts := Split(s, sep);
        assert parts[1..] == rest[1..];
        assert Join(rest, [sep]) == rest[0] + [sep] + Join(rest[1..], [sep]);
      }
    }
  }

  /** A string without the separator is a single piece. */
  lemma {:induction false} SplitNoSep(s: string, sep: char)
    requires sep !in s
    ensures Split(s, sep) == [s]
    decreases |s|
  {
    if s != [] {
      assert sep !in s[1..] by { assert forall k | 0 <= k < |s| - 1 :: s[1..][k] == s[k + 1]; }
      SplitNoSep(s[1..], sep);
      assert [s[0]] + s[1..] == s;
    }
  }

  /** A separator-free head is split off as the first piece. */
  lemma {:induction false} SplitAfterSep(a: string, sep: char, b: string)
    requires sep !in a
    ensures Split(a + [sep] + b, sep) == [a] + Split(b, sep)
    decreases |a|
  {
    var s := a + [sep] + b;
    if a == [] {
      assert s[1..] == b;
    } else {
      assert s[1..] == a[1..] + [sep] + b;
      assert sep !in a[1..] by { assert forall k | 0 <= k < |a| - 1 :: a[1..][k] == a[k + 1]; }
      SplitAfterSep(a[1..], sep, b);
      assert [a[0]] + a[1..] == a;
    }
  }

  /** Splitting undoes joining when no piece holds the separator. */
  lemma {:induction false} SplitJoin(parts: seq<string>, sep: char)
    requires |parts| >= 1
    requires forall i | 0 <= i < |parts| :: sep !in parts[i]
    ensures Split(Join(parts, [sep]), sep) == parts
    decreases |parts|
  {
    if |parts| == 1 {
      SplitNoSep(parts[0], sep);
    } else {
      SplitJoin(parts[1..], sep);
      SplitAfterSep(parts[0], sep, Join(parts[1..], [sep]));
    }
  }
}
