/**
 * The parts of .NET's `System.String` that the upload controller relies on,
 * written out over `seq<char>`.
 */
module Strings {
  import opened Wrappers

  /** `s.IndexOf(c)`: the first position of `c` in `s`, or -1 when there is none. */
  function IndexOf(s: string, c: char): (r: int)
    ensures -1 <= r < |s|
    ensures r == -1 <==> c !in s
    ensures r >= 0 ==> s[r] == c && c !in s[..r]
  {
    if |s| == 0 then -1
    else if s[0] == c then 0
    else
      var k := IndexOf(s[1..], c);
      if k == -1 then -1 else k + 1
  }

  /**
   * `s.Split(sep)`: the pieces of `s` between the occurrences of `sep`. There is
   * always at least one piece, empty pieces are kept, and no piece holds `sep`.
   */
  function Split(s: string, sep: char): (r: seq<string>)
    ensures |r| >= 1
    ensures sep in s <==> |r| >= 2
    ensures forall i :: 0 <= i < |r| ==> sep !in r[i]
    decreases |s|
  {
    if |s| == 0 then [""]
    else
      var rest := Split(s[1..], sep);
      if s[0] == sep then [""] + rest
      else [[s[0]] + rest[0]] + rest[1..]
  }

  /** `string.Join(sep, parts)`: the inverse of `Split`. */
  function Join(parts: seq<string>, sep: char): string
    requires |parts| >= 1
    decreases |parts|
  {
    if |parts| == 1 then parts[0] else parts[0] + [sep] + Join(parts[1..], sep)
  }

  /** Splitting loses nothing: joining the pieces back gives the original text. */
  lemma {:induction false} JoinSplit(s: string, sep: char)
    ensures Join(Split(s, sep), sep) == s
    decreases |s|
  {
    if |s| > 0 {
      var rest := Split(s[1..], sep);
      JoinSplit(s[1..], sep);
      if s[0] == sep {
        assert ([""] + rest)[1..] == rest;
        assert s == [sep] + s[1..];
      } else {
        var parts := [[s[0]] + rest[0]] + rest[1..];
        if |rest| == 1 {
          assert s == [s[0]] + s[1..];
        } else {
          assert parts[1..] == rest[1..];
          assert Join(rest, sep) == rest[0] + [sep] + Join(rest[1..], sep);
          assert s == [s[0]] + s[1..];
        }
      }
    }
  }

  /** Text without the separator is one piece. */
  lemma {:induction false} SplitWithoutSeparator(s: string, sep: char)
    requires sep !in s
    ensures Split(s, sep) == [s]
  {
    JoinSplit(s, sep);
  }

  /** The piece before the first separator is split off as a whole. */
  lemma {:induction false} SplitAfterPiece(a: string, b: string, sep: char)
    requires sep !in a
    ensures Split(a + [sep] + b, sep) == [a] + Split(b, sep)
    decreases |a|
  {
    if |a| == 0 {
      assert a + [sep] + b == [sep] + b;
      assert ([sep] + b)[1..] == b;
    } else {
      var whole := a + [sep] + b;
      SplitAfterPiece(a[1..], b, sep);
      assert whole[1..] == a[1..] + [sep] + b;
      var rest := Split(whole[1..], sep);
      assert rest == [a[1..]] + Split(b, sep);
      assert whole[0] == a[0] && a[0] != sep;
      assert Split(whole, sep) == [[a[0]] + rest[0]] + rest[1..];
      assert [a[0]] + a[1..] == a;
    }
  }

  /** The first piece is the text before the first separator. */
  lemma {:induction false} SplitFirstPiece(s: string, sep: char)
    requires sep in s
    ensures Split(s, sep)[0] == s[..IndexOf(s, sep)]
  {
    var k := IndexOf(s, sep);
    assert s == s[..k] + [sep] + s[k + 1..];
    SplitAfterPiece(s[..k], s[k + 1..], sep);
  }

  /**
   * Case folding used by `StringComparison.InvariantCultureIgnoreCase` on the
   * ASCII letters: upper-case letters fold to lower case, everything else to itself.
   */
  function FoldCase(c: char): (r: char)
    ensures 'A' <= c <= 'Z' ==> 'a' <= r <= 'z' && r as int - 'a' as int == c as int - 'A' as int
    ensures !('A' <= c <= 'Z') ==> r == c
  {
    if 'A' <= c <= 'Z' then (c as int + 32) as char else c
  }

  /** `a.Equals(b, StringComparison.InvariantCultureIgnoreCase)`. */
  predicate EqualsIgnoreCase(a: string, b: string)
    ensures EqualsIgnoreCase(a, b) ==> |a| == |b|
    ensures a == b ==> EqualsIgnoreCase(a, b)
  {
    |a| == |b| && forall i :: 0 <= i < |a| ==> FoldCase(a[i]) == FoldCase(b[i])
  }

  /** `s.StartsWith(prefix, StringComparison.InvariantCultureIgnoreCase)`. */
  predicate StartsWithIgnoreCase(s: string, prefix: string)
    ensures StartsWith(s, prefix) ==> StartsWithIgnoreCase(s, prefix)
    ensures StartsWithIgnoreCase(s, prefix) ==> |prefix| <= |s|
  {
    |prefix| <= |s| && EqualsIgnoreCase(s[..|prefix|], prefix)
  }

  /** `s.StartsWith(prefix)`, compared character by character. */
  predicate StartsWith(s: string, prefix: string)
    ensures StartsWith(s, prefix) <==> |prefix| <= |s| && s[..|prefix|] == prefix
  {
    prefix <= s
  }

  /** `s.Replace(from, to)` on single characters. */
  function Replace(s: string, from: char, to: char): (r: string)
    ensures |r| == |s|
    ensures forall i :: 0 <= i < |s| ==> r[i] == (if s[i] == from then to else s[i])
  {
    if |s| == 0 then "" else [if s[0] == from then to else s[0]] + Replace(s[1..], from, to)
  }

  /** `char.IsWhiteSpace`: the Unicode space separators and the control characters .NET counts as white space. */
  predicate IsWhiteSpace(c: char)
    ensures c == ' ' || c == '\t' || c == '\n' || c == '\r' ==> IsWhiteSpace(c)
    ensures IsWhiteSpace(c) ==> !('a' <= c <= 'z' || 'A' <= c <= 'Z' || '0' <= c <= '9')
  {
    var n := c as int;
    (0x09 <= n <= 0x0D) || n == 0x20 || n == 0x85 || n == 0xA0 || n == 0x1680 ||
    (0x2000 <= n <= 0x200A) || n == 0x2028 || n == 0x2029 || n == 0x202F ||
    n == 0x205F || n == 0x3000
  }

  /** `string.IsNullOrWhiteSpace(s)`. */
  predicate IsNullOrWhiteSpace(s: Option<string>)
    ensures s.None? ==> IsNullOrWhiteSpace(s)
    ensures s == Some("") ==> IsNullOrWhiteSpace(s)
    ensures s.Some? && |s.value| > 0 && !IsWhiteSpace(s.value[0]) ==> !IsNullOrWhiteSpace(s)
  {
    s.None? || forall i :: 0 <= i < |s.value| ==> IsWhiteSpace(s.value[i])
  }
}
