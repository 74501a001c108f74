/**
  The few `java.lang.String` operations the lookup relies on, modelled on
  `seq<char>`: ASCII `toLowerCase`, `indexOf`, `contains`, `startsWith`,
  `substring` (with its bounds exception), `replace` and `split` with the
  default limit of zero.
 */
module JavaString {
  import opened Results

  // ---------------------------------------------------------------------------
  // Case folding (ASCII only)
  // ---------------------------------------------------------------------------

  predicate IsUpper(c: char) {
    'A' <= c <= 'Z'
  }

  /** `Character.toLowerCase` restricted to the ASCII range. */
  function LowerChar(c: char): (r: char)
    ensures !IsUpper(r)
    ensures !IsUpper(c) ==> r == c
    ensures IsUpper(c) ==> 'a' <= r <= 'z' && r as int - c as int == 'a' as int - 'A' as int
  {
    if IsUpper(c) then (c as int - 'A' as int + 'a' as int) as char else c
  }

  /** A string that `toLowerCase` leaves unchanged. */
  predicate IsLower(s: string) {
    forall i :: 0 <= i < |s| ==> !IsUpper(s[i])
  }

  /** `String.toLowerCase`, character by character; the length never changes. */
  function Lower(s: string): (r: string)
    ensures |r| == |s|
    ensures forall i :: 0 <= i < |s| ==> r[i] == LowerChar(s[i])
    ensures IsLower(r)
  {
    seq(|s|, i requires 0 <= i < |s| => LowerChar(s[i]))
  }

  /** Lowercasing is idempotent: a lowercased string is a fixed point. */
  lemma LowerOfLower(s: string)
    requires IsLower(s)
    ensures Lower(s) == s
  {
  }

  /** Lowercasing commutes with taking a substring. */
  lemma LowerSlice(s: string, lo: int, hi: int)
    requires 0 <= lo <= hi <= |s|
    ensures Lower(s)[lo..hi] == Lower(s[lo..hi])
  {
  }

  /** Only a comma lowercases to a comma. */
  lemma LowerKeepsComma(s: string)
    ensures ',' in Lower(s) <==> ',' in s
  {
    if ',' in Lower(s) {
      var i :| 0 <= i < |s| && Lower(s)[i] == ',';
      assert s[i] == ',';
    }
    if ',' in s {
      var i :| 0 <= i < |s| && s[i] == ',';
      assert Lower(s)[i] == ',';
    }
  }

  // ---------------------------------------------------------------------------
  // Searching
  // ---------------------------------------------------------------------------

  /** `t` occurs in `s` starting at index `i`. */
  predicate OccursAt(s: string, t: string, i: int) {
    0 <= i && i + |t| <= |s| && s[i..i + |t|] == t
  }

  lemma OccursAtChar(s: string, c: char)
    ensures forall i :: OccursAt(s, [c], i) <==> 0 <= i < |s| && s[i] == c
  {
    forall i | 0 <= i < |s| && s[i] == c
      ensures OccursAt(s, [c], i)
    {
      assert s[i..i + 1] == [c];
    }
  }

  function IndexOfFrom(s: string, t: string, from: nat): (r: int)
    requires from <= |s|
    ensures r == -1 || (from <= r && OccursAt(s, t, r))
    ensures forall j :: from <= j && (r < 0 || j < r) ==> !OccursAt(s, t, j)
    decreases |s| - from
  {
    if from + |t| > |s| then -1
    else if s[from..from + |t|] == t then from
    else IndexOfFrom(s, t, from + 1)
  }

  /** `String.indexOf(String)`: the first index where `t` occurs, or -1. */
  function IndexOf(s: string, t: string): (r: int)
    ensures -1 <= r
    ensures r >= 0 ==> OccursAt(s, t, r)
    ensures forall j :: 0 <= j && (r < 0 || j < r) ==> !OccursAt(s, t, j)
  {
    IndexOfFrom(s, t, 0)
  }

  /** `String.indexOf(char)`: the first index holding `c`, or -1. */
  function IndexOfChar(s: string, c: char): (r: int)
    ensures -1 <= r < |s|
    ensures r >= 0 ==> s[r] == c
    ensures r < 0 <==> c !in s
    ensures forall j :: 0 <= j < |s| && (r < 0 || j < r) ==> s[j] != c
  {
    OccursAtChar(s, c);
    IndexOf(s, [c])
  }

  /** `String.contains`, which Java defines as `indexOf(t) >= 0`. */
  function Contains(s: string, t: string): (b: bool)
    ensures b <==> exists j :: OccursAt(s, t, j)
  {
    IndexOf(s, t) >= 0
  }

  /** `String.startsWith`. */
  predicate StartsWith(s: string, prefix: string) {
    |prefix| <= |s| && s[..|prefix|] == prefix
  }

  /**
    `String.substring(begin, end)`: `None` stands for the
    `StringIndexOutOfBoundsException` Java throws when `begin < 0`,
    `end > length()` or `begin > end`.
   */
  function Substring(s: string, begin: int, end: int): (r: Option<string>)
    ensures r.Some? <==> 0 <= begin <= end <= |s|
    ensures r.Some? ==> |r.value| == end - begin
    ensures r.Some? ==> forall k :: 0 <= k < |r.value| ==> r.value[k] == s[begin + k]
  {
    if 0 <= begin <= end <= |s| then Some(s[begin..end]) else None
  }

  // ---------------------------------------------------------------------------
  // String.replace(CharSequence, CharSequence)
  // ---------------------------------------------------------------------------

  /**
    Replaces every occurrence of `target`, scanning left to right and
    resuming after each replaced occurrence, so occurrences never overlap
    and text produced by a replacement is never rescanned.
   */
  function Replace(s: string, target: string, replacement: string): (r: string)
    requires |target| > 0
    ensures |replacement| <= |target| ==> |r| <= |s|
    decreases |s|
  {
    if |s| < |target| then s
    else if StartsWith(s, target) then replacement + Replace(s[|target|..], target, replacement)
    else [s[0]] + Replace(s[1..], target, replacement)
  }

  /** An occurrence in the tail `s[1..]` is an occurrence in `s`, one index later. */
  lemma OccursInTail(s: string, t: string, j: nat)
    requires |s| > 0
    ensures OccursAt(s[1..], t, j) <==> OccursAt(s, t, j + 1)
  {
    if j + |t| <= |s| - 1 {
      assert s[1..][j..j + |t|] == s[j + 1..j + 1 + |t|];
    }
  }

  /** A string without any occurrence of the target is returned unchanged. */
  lemma {:induction false} ReplaceAbsent(s: string, target: string, replacement: string)
    requires |target| > 0
    requires forall j :: !OccursAt(s, target, j)
    ensures Replace(s, target, replacement) == s
    decreases |s|
  {
    if |s| >= |target| {
      ReplaceCopiesFirst(s, target, replacement);
      forall j | 0 <= j ensures !OccursAt(s[1..], target, j) {
        OccursInTail(s, target, j);
      }
      ReplaceAbsent(s[1..], target, replacement);
    }
  }

  /** A leading occurrence is replaced and the scan resumes after it. */
  lemma ReplaceLeading(target: string, rest: string, replacement: string)
    requires |target| > 0
    ensures Replace(target + rest, target, replacement) == replacement + Replace(rest, target, replacement)
  {
    var s := target + rest;
    assert StartsWith(s, target) && s[|target|..] == rest;
  }

  /**
    A prefix in which no occurrence of the target starts is copied through
    unchanged, and the scan resumes right after it.
   */
  lemma {:induction false} ReplaceSkipsPrefix(p: string, s: string, target: string, replacement: string)
    requires |target| > 0
    requires forall j :: 0 <= j < |p| ==> !OccursAt(p + s, target, j)
    ensures Replace(p + s, target, replacement) == p + Replace(s, target, replacement)
    decreases |p|
  {
    if |p| == 0 {
      assert p + s == s;
    } else if |p + s| < |target| {
      assert Replace(p + s, target, replacement) == p + s;
    } else {
      var ps := p + s;
      assert ps[1..] == p[1..] + s;
      forall j | 0 <= j < |p| - 1 ensures !OccursAt(p[1..] + s, target, j) {
        OccursInTail(ps, target, j);
      }
      ReplaceSkipsPrefix(p[1..], s, target, replacement);
      ReplaceCopiesFirst(ps, target, replacement);
      assert [p[0]] + (p[1..] + Replace(s, target, replacement)) == p + Replace(s, target, replacement);
    }
  }

  /** Where no occurrence starts, the first character is copied and the scan moves on. */
  lemma ReplaceCopiesFirst(s: string, target: string, replacement: string)
    requires |target| > 0 && |s| >= |target|
    requires !OccursAt(s, target, 0)
    ensures Replace(s, target, replacement) == [s[0]] + Replace(s[1..], target, replacement)
  {
    assert s[..|target|] == s[0..|target|];
  }

  /** Removing every occurrence (empty replacement) shortens a string by at least one target's length. */
  lemma {:induction false} ReplaceByEmptyShrinks(s: string, target: string)
    requires |target| > 0
    ensures Contains(s, target) ==> |Replace(s, target, "")| <= |s| - |target|
    decreases |s|
  {
    if |s| >= |target| && !StartsWith(s, target) {
      ReplaceByEmptyShrinks(s[1..], target);
      if Contains(s, target) {
        var j :| OccursAt(s, target, j);
        assert j != 0;
        OccursInTail(s, target, j - 1);
      }
    }
  }

  // ---------------------------------------------------------------------------
  // String.split(String) with a one-character, non-meta separator
  // ---------------------------------------------------------------------------

  /** All pieces between separators, empty ones included. */
  function Pieces(s: string, sep: char): (parts: seq<string>)
    ensures |parts| >= 1
    ensures forall i :: 0 <= i < |parts| ==> sep !in parts[i]
    decreases |s|
  {
    if |s| == 0 then [""]
    else
      var rest := Pieces(s[1..], sep);
      if s[0] == sep then [""] + rest
      else [[s[0]] + rest[0]] + rest[1..]
  }

  /** Joins pieces with the separator: the inverse of `Pieces`. */
  function Join(parts: seq<string>, sep: char): string
    requires |parts| >= 1
  {
    if |parts| == 1 then parts[0] else parts[0] + [sep] + Join(parts[1..], sep)
  }

  lemma {:induction false} JoinPieces(s: string, sep: char)
    ensures Join(Pieces(s, sep), sep) == s
    decreases |s|
  {
    if |s| == 0 {
    } else {
      var rest := Pieces(s[1..], sep);
      JoinPieces(s[1..], sep);
      if s[0] == sep {
        assert Join([""] + rest, sep) == "" + [sep] + Join(rest, sep);
        assert s == [s[0]] + s[1..];
      } else {
        var head := [s[0]] + rest[0];
        var parts := [head] + rest[1..];
        if |rest| == 1 {
          assert Join(parts, sep) == head;
        } else {
          assert parts[1..] == rest[1..];
          assert Join(rest, sep) == rest[0] + [sep] + Join(rest[1..], sep);
          assert Join(parts, sep) == head + [sep] + Join(rest[1..], sep);
        }
        assert s == [s[0]] + s[1..];
      }
    }
  }

  /** Splitting a join of separator-free pieces gives the pieces back. */
  lemma {:induction false} PiecesOfJoin(parts: seq<string>, sep: char)
    requires |parts| >= 1
    requires forall i :: 0 <= i < |parts| ==> sep !in parts[i]
    ensures Pieces(Join(parts, sep), sep) == parts
  {
    PiecesOfPlain(parts[0], sep);
    if |parts| > 1 {
      PiecesOfJoin(parts[1..], sep);
      PiecesAcrossSeparator(parts[0], sep, Join(parts[1..], sep));
      assert parts == [parts[0]] + parts[1..];
    }
  }

  /** Pieces of `x + sep + y` are the pieces of `x` followed by those of `y`. */
  lemma {:induction false} PiecesAcrossSeparator(x: string, sep: char, y: string)
    ensures Pieces(x + [sep] + y, sep) == Pieces(x, sep) + Pieces(y, sep)
    decreases |x|
  {
    var s := x + [sep] + y;
    if |x| == 0 {
      assert s[0] == sep && s[1..] == y;
    } else {
      assert s[0] == x[0];
      assert s[1..] == x[1..] + [sep] + y;
      PiecesAcrossSeparator(x[1..], sep, y);
    }
  }

  /** A string without the separator is a single piece. */
  lemma {:induction false} PiecesOfPlain(x: string, sep: char)
    requires sep !in x
    ensures Pieces(x, sep) == [x]
    decreases |x|
  {
    if |x| > 0 {
      PiecesOfPlain(x[1..], sep);
      assert x == [x[0]] + x[1..];
    }
  }

  /** Drops the empty strings at the end of a sequence of pieces. */
  function DropTrailingEmpty(parts: seq<string>): (r: seq<string>)
    ensures |r| <= |parts| && r == parts[..|r|]
    ensures |r| > 0 ==> r[|r| - 1] != ""
    ensures forall i :: |r| <= i < |parts| ==> parts[i] == ""
    decreases |parts|
  {
    if |parts| > 0 && parts[|parts| - 1] == "" then DropTrailingEmpty(parts[..|parts| - 1])
    else parts
  }

  /**
    `String.split(String)` for a separator that is a single ordinary
    character, with the default limit of zero: without any separator the
    result is the whole string; otherwise it is every piece with the
    trailing empty pieces removed (a leading empty piece is kept).
   */
  function Split(s: string, sep: char): (parts: seq<string>)
    ensures sep !in s ==> parts == [s]
    ensures sep in s ==>
      (|parts| <= |Pieces(s, sep)| && parts == Pieces(s, sep)[..|parts|] &&
       (|parts| > 0 ==> parts[|parts| - 1] != "") &&
       forall i :: |parts| <= i < |Pieces(s, sep)| ==> Pieces(s, sep)[i] == "")
    ensures forall i :: 0 <= i < |parts| ==> sep !in parts[i]
  {
    if sep !in s then [s] else DropTrailingEmpty(Pieces(s, sep))
  }

  /**
    The split keeps at least `n >= 2` elements exactly when some piece at
    index `n - 1` or later is non-empty, and its elements are the leading
    pieces.
   */
  lemma SplitLength(s: string, sep: char, n: nat)
    requires n >= 2
    ensures |Split(s, sep)| >= n ==>
      exists i :: n - 1 <= i < |Pieces(s, sep)| && Pieces(s, sep)[i] != ""
    ensures (exists i :: n - 1 <= i < |Pieces(s, sep)| && Pieces(s, sep)[i] != "") ==>
      |Split(s, sep)| >= n
    ensures forall i :: 0 <= i < |Split(s, sep)| ==> Split(s, sep)[i] == Pieces(s, sep)[i]
  {
    var p := Pieces(s, sep);
    var r := Split(s, sep);
    if sep !in s {
      PiecesOfPlain(s, sep);
    } else {
      if |r| >= n {
        var last := |r| - 1;
        assert r[last] == p[..|r|][last] == p[last];
        assert n - 1 <= last < |p| && p[last] != "";
      }
      if i :| n - 1 <= i < |p| && p[i] != "" {
        assert i < |r|;
      }
    }
  }
}
