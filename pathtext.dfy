/**
 * The string operations `FileTree::get_file` applies to a path before it walks
 * the tree: Rust's `str::trim`, `str::trim_start_matches('/')` and
 * `str::split('/')`, with the properties the walk relies on.
 */
module PathText {

  /** Rust's `char::is_whitespace`: the Unicode `White_Space` property. */
  predicate IsWhitespace(c: char) {
    || ('\t' <= c <= '\r')
    || c == ' '
    || c == '\U{0085}'
    || c == '\U{00A0}'
    || c == '\U{1680}'
    || ('\U{2000}' <= c <= '\U{200A}')
    || c == '\U{2028}'
    || c == '\U{2029}'
    || c == '\U{202F}'
    || c == '\U{205F}'
    || c == '\U{3000}'
  }

  predicate IsSlash(c: char) {
    c == '/'
  }

  /** The number of leading characters of `s` that satisfy `p`. */
  function LeadingCount(s: string, p: char -> bool): (n: nat)
    ensures n <= |s|
    ensures forall k :: 0 <= k < n ==> p(s[k])
    ensures n == |s| || !p(s[n])
  {
    if |s| > 0 && p(s[0]) then 1 + LeadingCount(s[1..], p) else 0
  }

  /** The number of trailing characters of `s` that satisfy `p`. */
  function TrailingCount(s: string, p: char -> bool): (n: nat)
    ensures n <= |s|
    ensures forall k :: |s| - n <= k < |s| ==> p(s[k])
    ensures n == |s| || !p(s[|s| - n - 1])
  {
    if |s| > 0 && p(s[|s| - 1]) then 1 + TrailingCount(s[..|s| - 1], p) else 0
  }

  /** `str::trim_start_matches(p)`: drops every leading character satisfying `p`. */
  function TrimStartMatching(s: string, p: char -> bool): (r: string)
    ensures |r| <= |s| && r == s[|s| - |r|..]
    ensures forall k :: 0 <= k < |s| - |r| ==> p(s[k])
    ensures r == [] || !p(r[0])
  {
    s[LeadingCount(s, p)..]
  }

  /** `str::trim_matches(p)`: the longest slice of `s` that neither starts nor ends with a character satisfying `p`. */
  function TrimMatching(s: string, p: char -> bool): (r: string)
    ensures exists i, j :: 0 <= i <= j <= |s| && r == s[i..j]
                           && (forall k :: 0 <= k < i ==> p(s[k]))
                           && (forall k :: j <= k < |s| ==> p(s[k]))
    ensures r == [] || (!p(r[0]) && !p(r[|r| - 1]))
  {
    var i := LeadingCount(s, p);
    var t := s[i..];
    var n := TrailingCount(t, p);
    var j := |s| - n;
    assert forall k :: j <= k < |s| ==> p(s[k]) by {
      forall k | j <= k < |s|
        ensures p(s[k])
      {
        assert s[k] == t[k - i];
      }
    }
    var r := s[i..j];
    assert r != [] ==> r[0] == s[i] && r[|r| - 1] == t[|t| - n - 1];
    assert 0 <= i <= j <= |s| && r == s[i..j];
    r
  }

  /** `str::trim`: the longest slice of `s` that neither starts nor ends with whitespace. */
  function Trim(s: string): (r: string)
    ensures exists i, j :: 0 <= i <= j <= |s| && r == s[i..j]
                           && (forall k :: 0 <= k < i ==> IsWhitespace(s[k]))
                           && (forall k :: j <= k < |s| ==> IsWhitespace(s[k]))
    ensures r == [] || (!IsWhitespace(r[0]) && !IsWhitespace(r[|r| - 1]))
  {
    TrimMatching(s, IsWhitespace)
  }

  /**
   * `path.trim().trim_start_matches('/')`: surrounding whitespace goes first,
   * then EVERY leading slash.
   */
  function Normalize(path: string): (r: string)
    ensures r == [] || r[0] != '/'
  {
    TrimStartMatching(Trim(path), IsSlash)
  }

  /**
   * `str::split('/')`, collected: the pieces between slashes, in order. Empty
   * pieces are kept, and the result is never empty (`""` splits into `[""]`).
   */
  function Split(s: string): (r: seq<string>)
    ensures |r| >= 1
    ensures forall k :: 0 <= k < |r| ==> '/' !in r[k]
  {
    if |s| == 0 then [""]
    else if s[0] == '/' then [""] + Split(s[1..])
    else
      var rest := Split(s[1..]);
      [[s[0]] + rest[0]] + rest[1..]
  }

  /** The segments `get_file` looks up, in order. */
  function Segments(path: string): (r: seq<string>)
    ensures |r| >= 1
  {
    Split(Normalize(path))
  }

  /** The names of a path joined by slashes (`[a, b]` gives `a/b`); the inverse of `Split`. */
  function Join(names: seq<string>): string
  {
    if |names| == 0 then ""
    else if |names| == 1 then names[0]
    else names[0] + "/" + Join(names[1..])
  }

  /** Joining the pieces of a split gives back the string. */
  lemma {:induction false} JoinSplit(s: string)
    ensures Join(Split(s)) == s
  {
    if |s| == 0 {
    } else if s[0] == '/' {
      JoinSplit(s[1..]);
      assert Split(s) == [""] + Split(s[1..]);
    } else {
      var rest := Split(s[1..]);
      JoinSplit(s[1..]);
      if |rest| == 1 {
        assert Split(s) == [[s[0]] + rest[0]];
      } else {
        var parts := Split(s);
        assert parts[0] == [s[0]] + rest[0] && parts[1..] == rest[1..];
        calc {
          Join(parts);
          parts[0] + "/" + Join(parts[1..]);
          [s[0]] + (rest[0] + "/" + Join(rest[1..]));
          [s[0]] + Join(rest);
        }
        assert [s[0]] + s[1..] == s;
      }
    }
  }

  /** A piece without slashes, followed by a slash, is split off whole. */
  lemma {:induction false} SplitSlashFree(a: string, t: string)
    requires '/' !in a
    ensures Split(a) == [a]
    ensures Split(a + "/" + t) == [a] + Split(t)
  {
    if |a| == 0 {
      assert a + "/" + t == "/" + t;
      assert ("/" + t)[1..] == t;
    } else {
      SplitSlashFree(a[1..], t);
      assert (a + "/" + t)[1..] == a[1..] + "/" + t;
      assert [a[0]] + a[1..] == a;
    }
  }

  /** Splitting the join of slash-free names gives back the names. */
  lemma {:induction false} SplitJoin(names: seq<string>)
    requires |names| >= 1
    requires forall k :: 0 <= k < |names| ==> '/' !in names[k]
    ensures Split(Join(names)) == names
  {
    if |names| == 1 {
      SplitSlashFree(names[0], "");
    } else {
      SplitJoin(names[1..]);
      SplitSlashFree(names[0], Join(names[1..]));
      assert [names[0]] + names[1..] == names;
    }
  }

  /** The joined names start with the first name. */
  lemma {:induction false} JoinStartsWith(names: seq<string>)
    requires |names| >= 1 && names[0] != ""
    ensures |Join(names)| > 0 && Join(names)[0] == names[0][0]
  {
  }

  /** The joined names end with the last name. */
  lemma {:induction false} JoinEndsWith(names: seq<string>)
    requires |names| >= 1 && names[|names| - 1] != ""
    ensures |Join(names)| > 0 && Join(names)[|Join(names)| - 1] == names[|names| - 1][|names[|names| - 1]| - 1]
  {
    if |names| > 1 {
      JoinEndsWith(names[1..]);
    }
  }

  /** A path that starts with neither whitespace nor a slash and does not end in whitespace is already normal. */
  lemma NormalizeUnchanged(p: string)
    requires |p| > 0 && !IsWhitespace(p[0]) && !IsWhitespace(p[|p| - 1]) && p[0] != '/'
    ensures Normalize(p) == p
  {
    assert LeadingCount(p, IsWhitespace) == 0;
    assert p[0..] == p && TrailingCount(p, IsWhitespace) == 0;
    assert Trim(p) == p;
    assert LeadingCount(p, IsSlash) == 0;
  }

  /**
   * Round trip of the path text: a path written as non-empty, slash-free names
   * joined by `/`, with no whitespace at either end, yields exactly those names
   * as its segments.
   */
  lemma {:induction false} SegmentsOfJoin(names: seq<string>)
    requires |names| >= 1
    requires forall k :: 0 <= k < |names| ==> names[k] != "" && '/' !in names[k]
    requires !IsWhitespace(names[0][0])
    requires !IsWhitespace(names[|names| - 1][|names[|names| - 1]| - 1])
    ensures Segments(Join(names)) == names
  {
    var p := Join(names);
    var first, last := names[0], names[|names| - 1];
    assert first != "" && '/' !in first && last != "";
    JoinStartsWith(names);
    JoinEndsWith(names);
    assert p[0] == first[0] && first[0] in first;
    NormalizeUnchanged(p);
    SplitJoin(names);
  }

  /** `s` has two slashes in a row somewhere. */
  predicate HasDoubleSlash(s: string) {
    exists k :: 0 <= k < |s| - 1 && s[k] == '/' && s[k + 1] == '/'
  }

  /** Two slashes in a row either open `s` or lie in its tail. */
  lemma DoubleSlashUnfold(s: string)
    requires |s| > 0
    ensures HasDoubleSlash(s) <==> (|s| > 1 && s[0] == '/' && s[1] == '/') || HasDoubleSlash(s[1..])
  {
    var u := s[1..];
    if HasDoubleSlash(s) {
      var k :| 0 <= k < |s| - 1 && s[k] == '/' && s[k + 1] == '/';
      if k > 0 {
        assert u[k - 1] == '/' && u[k] == '/';
      }
    }
    if HasDoubleSlash(u) {
      var k :| 0 <= k < |u| - 1 && u[k] == '/' && u[k + 1] == '/';
      assert s[k + 1] == '/' && s[k + 2] == '/';
    }
  }

  /** Some piece after the first is empty exactly when `s` ends in a slash or has two in a row. */
  lemma {:induction false} EmptyLaterPiece(s: string)
    ensures "" in Split(s)[1..] <==> (|s| > 0 && s[|s| - 1] == '/') || HasDoubleSlash(s)
  {
    if |s| > 0 {
      var u := s[1..];
      EmptyLaterPiece(u);
      DoubleSlashUnfold(s);
      if s[0] == '/' {
        assert Split(s)[1..] == Split(u);
        assert "" in Split(u) <==> Split(u)[0] == "" || "" in Split(u)[1..];
      } else {
        assert Split(s)[1..] == Split(u)[1..];
      }
    }
  }

  /** The first piece is empty exactly when `s` is empty or starts with a slash. */
  lemma {:induction false} EmptyFirstPiece(s: string)
    ensures Split(s)[0] == "" <==> |s| == 0 || s[0] == '/'
  {
  }

  /**
   * A path yields an empty segment exactly when, after normalisation, it is
   * empty, ends in a slash, or holds two slashes in a row (a leading slash
   * cannot survive normalisation).
   */
  lemma EmptySegmentPaths(path: string)
    ensures var s := Normalize(path);
            "" in Segments(path) <==> s == "" || s[|s| - 1] == '/' || HasDoubleSlash(s)
  {
    var s := Normalize(path);
    EmptyFirstPiece(s);
    EmptyLaterPiece(s);
    assert "" in Split(s) <==> Split(s)[0] == "" || "" in Split(s)[1..];
  }
}
