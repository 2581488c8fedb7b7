/**
  Character-sequence helpers that model the JavaScript string operations the
  core uses: `trim`, truthiness of strings (`s || null`, `s || ""`), `split`
  followed by taking the last piece, `join`, number-to-decimal rendering,
  `toLowerCase` and `length` (which counts UTF-16 code units).
 */
module Strings {
  import opened Wrappers

  /** The code points JavaScript's `trim` removes: WhiteSpace and LineTerminator. */
  predicate IsWhitespace(c: char) {
    || c == ' ' || c == '\t' || c == '\n' || c == '\r'
    || c == '\U{000B}' || c == '\U{000C}' || c == '\U{00A0}' || c == '\U{FEFF}'
    || c == '\U{1680}' || ('\U{2000}' <= c <= '\U{200A}')
    || c == '\U{2028}' || c == '\U{2029}' || c == '\U{202F}' || c == '\U{205F}'
    || c == '\U{3000}'
  }

  predicate AllWhitespace(s: string) {
    forall i :: 0 <= i < |s| ==> IsWhitespace(s[i])
  }

  /** Neither end of `s` is whitespace: what `trim` produces. */
  predicate IsTrimmed(s: string) {
    s == [] || (!IsWhitespace(s[0]) && !IsWhitespace(s[|s| - 1]))
  }

  /** The first index from `i` on that holds no whitespace, or `|s|`. */
  function SkipLeading(s: string, i: nat): (r: nat)
    requires i <= |s|
    ensures i <= r <= |s|
    ensures forall k :: i <= k < r ==> IsWhitespace(s[k])
    ensures r < |s| ==> !IsWhitespace(s[r])
    decreases |s| - i
  {
    if i < |s| && IsWhitespace(s[i]) then SkipLeading(s, i + 1) else i
  }

  /** The end of `s[..j]` once its trailing whitespace is dropped. */
  function SkipTrailing(s: string, j: nat): (r: nat)
    requires j <= |s|
    ensures r <= j
    ensures forall k :: r <= k < j ==> IsWhitespace(s[k])
    ensures r > 0 ==> !IsWhitespace(s[r - 1])
  {
    if j > 0 && IsWhitespace(s[j - 1]) then SkipTrailing(s, j - 1) else j
  }

  /** JavaScript's `s.trim()`: whitespace removed from both ends. */
  function Trim(s: string): (r: string)
    ensures IsTrimmed(r)
    ensures r == [] <==> AllWhitespace(s)
    ensures |r| <= |s|
  {
    var a := SkipLeading(s, 0);
    var b := SkipTrailing(s, |s|);
    if b <= a then [] else s[a..b]
  }

  /** `trim` keeps one contiguous stretch of `s` and drops only whitespace around it. */
  lemma TrimDropsOnlyWhitespace(s: string)
    ensures exists i :: 0 <= i <= |s| - |Trim(s)|
              && s[i..i + |Trim(s)|] == Trim(s)
              && AllWhitespace(s[..i]) && AllWhitespace(s[i + |Trim(s)|..])
  {
    var a := SkipLeading(s, 0);
    var b := SkipTrailing(s, |s|);
    if b <= a {
      assert s[0..0] == [] && s[..0] == [] && s[0..] == s;
      assert AllWhitespace(s) by {
        forall k | 0 <= k < |s| ensures IsWhitespace(s[k]) {
          if k >= a { assert k >= b; }
        }
      }
    } else {
      assert Trim(s) == s[a..b];
      assert AllWhitespace(s[..a]);
      assert AllWhitespace(s[b..]);
    }
  }

  /** Trimming leaves an already trimmed string alone. */
  lemma TrimOfTrimmed(s: string)
    requires IsTrimmed(s)
    ensures Trim(s) == s
  {
    if s != [] {
      assert SkipLeading(s, 0) == 0;
      assert SkipTrailing(s, |s|) == |s|;
      assert s[0..|s|] == s;
    }
  }

  /** `trim` is idempotent. */
  lemma TrimIdempotent(s: string)
    ensures Trim(Trim(s)) == Trim(s)
  {
    TrimOfTrimmed(Trim(s));
  }

  /** JavaScript's `s || null` for a string: the empty string is falsy. */
  function NullIfEmpty(s: string): (r: Option<string>)
    ensures r.None? <==> s == ""
    ensures r.Some? ==> r.value == s
  {
    if s == "" then None else Some(s)
  }

  /** JavaScript's `o || ""` for a nullable string. */
  function EmptyIfNull(o: Option<string>): (r: string)
    ensures o.Some? ==> r == o.value
    ensures o.None? ==> r == ""
  {
    if o.Some? then o.value else ""
  }

  /** JavaScript's `o || fallback` for a nullable string. */
  function OrElse(o: Option<string>, fallback: string): (r: string)
    ensures o.Some? && o.value != "" ==> r == o.value
    ensures o.None? || o.value == "" ==> r == fallback
  {
    if o.Some? && o.value != "" then o.value else fallback
  }

  /** A nullable string that is never the empty string: what `s || null` stores. */
  predicate NoEmptyString(o: Option<string>) {
    o != Some("")
  }

  /** JavaScript truthiness of a nullable string. */
  predicate Truthy(o: Option<string>) {
    o.Some? && o.value != ""
  }

  /** `"" -> null` then `null -> ""` gives back the string. */
  lemma EmptyIfNullOfNullIfEmpty(s: string)
    ensures EmptyIfNull(NullIfEmpty(s)) == s
  {
  }

  /** `null -> ""` then `"" -> null` gives back every value `s || null` can store. */
  lemma NullIfEmptyOfEmptyIfNull(o: Option<string>)
    requires NoEmptyString(o)
    ensures NullIfEmpty(EmptyIfNull(o)) == o
  {
  }

  /** The description normalisation of the admin forms: `s.trim() || null`. */
  function TrimToNull(s: string): (r: Option<string>)
    ensures r.None? <==> AllWhitespace(s)
    ensures r.Some? ==> r.value == Trim(s) && r.value != "" && IsTrimmed(r.value)
  {
    NullIfEmpty(Trim(s))
  }

  // ---------------------------------------------------------------------------
  // Searching, splitting and joining

  /** `sep` occurs in `s` starting at index `i`. */
  predicate OccursAt(s: string, sep: string, i: int) {
    0 <= i && i + |sep| <= |s| && s[i..i + |sep|] == sep
  }

  predicate Contains(s: string, t: string) {
    exists i :: 0 <= i <= |s| && OccursAt(s, t, i)
  }

  /** `t` occurs in `a + t + b + c` right after `a`. */
  lemma OccursBetween(a: string, t: string, b: string, c: string)
    ensures OccursAt(a + t + b + c, t, |a|) && Contains(a + t + b + c, t)
  {
    assert (a + t + b + c)[|a|..|a| + |t|] == t;
    assert OccursAt(a + t + b + c, t, |a|);
  }

  /** An occurrence inside the slice `s[a..b]` is an occurrence in `s` that ends by `b`. */
  lemma SliceOccurs(s: string, sep: string, a: nat, b: nat, p: int)
    requires a <= b <= |s|
    ensures OccursAt(s[a..b], sep, p) ==> OccursAt(s, sep, a + p) && a + p + |sep| <= b
  {
    if OccursAt(s[a..b], sep, p) {
      forall i | 0 <= i < |sep| ensures s[a + p..a + p + |sep|][i] == sep[i] {
        assert s[a..b][p..p + |sep|][i] == sep[i];
      }
    }
  }

  /** The first index from `i` on at which `sep` occurs in `s`. */
  function IndexFrom(s: string, sep: string, i: nat): (r: Option<nat>)
    requires i <= |s|
    ensures r.Some? ==> i <= r.value && OccursAt(s, sep, r.value)
    ensures r.Some? ==> forall j :: i <= j < r.value ==> !OccursAt(s, sep, j)
    ensures r.None? ==> forall j :: i <= j ==> !OccursAt(s, sep, j)
    decreases |s| - i
  {
    if i + |sep| > |s| then None
    else if s[i..i + |sep|] == sep then Some(i)
    else IndexFrom(s, sep, i + 1)
  }

  /** The first index at which `sep` occurs in `s`, as `indexOf` finds it. */
  function IndexOf(s: string, sep: string): (r: Option<nat>)
    ensures r.Some? ==> OccursAt(s, sep, r.value)
    ensures r.Some? ==> forall j :: 0 <= j < r.value ==> !OccursAt(s, sep, j)
    ensures r.None? ==> !Contains(s, sep)
  {
    IndexFrom(s, sep, 0)
  }

  /** The pieces of `s[start..]` between occurrences of `sep`. */
  function SplitFrom(s: string, sep: string, start: nat): (r: seq<string>)
    requires sep != [] && start <= |s|
    ensures |r| >= 1
    decreases |s| - start
  {
    match IndexFrom(s, sep, start)
    case None => [s[start..]]
    case Some(j) => [s[start..j]] + SplitFrom(s, sep, j + |sep|)
  }

  /** A split that finds no separator is the one piece `s[start..]`. */
  lemma SplitFromNone(s: string, sep: string, start: nat)
    requires sep != [] && start <= |s| && IndexFrom(s, sep, start) == None
    ensures SplitFrom(s, sep, start) == [s[start..]]
  {
  }

  /** A split that finds its first separator at `j` starts with the piece before it. */
  lemma SplitFromStep(s: string, sep: string, start: nat, j: nat)
    requires sep != [] && start <= |s| && IndexFrom(s, sep, start) == Some(j)
    ensures j + |sep| <= |s|
    ensures SplitFrom(s, sep, start) == [s[start..j]] + SplitFrom(s, sep, j + |sep|)
  {
  }

  /** JavaScript's `s.split(sep)` for a non-empty separator string. */
  function Split(s: string, sep: string): (r: seq<string>)
    requires sep != []
    ensures |r| >= 1
  {
    SplitFrom(s, sep, 0)
  }

  /** JavaScript's `pieces.join(sep)`. */
  function Join(pieces: seq<string>, sep: string): (r: string)
  {
    if pieces == [] then ""
    else if |pieces| == 1 then pieces[0]
    else pieces[0] + sep + Join(pieces[1..], sep)
  }

  lemma JoinCons(head: string, tail: seq<string>, sep: string)
    requires tail != []
    ensures Join([head] + tail, sep) == head + sep + Join(tail, sep)
  {
    assert ([head] + tail)[1..] == tail;
  }

  /** The piece `s[start..j]`, the separator at `j` and pieces joining to the rest make up `s[start..]`. */
  lemma JoinPieceBefore(s: string, sep: string, start: nat, j: nat, t: seq<string>)
    requires start <= j && j + |sep| <= |s| && s[j..j + |sep|] == sep
    requires t != [] && Join(t, sep) == s[j + |sep|..]
    ensures Join([s[start..j]] + t, sep) == s[start..]
  {
    var k := j + |sep|;
    calc {
      Join([s[start..j]] + t, sep);
    == { JoinCons(s[start..j], t, sep); }
      s[start..j] + sep + Join(t, sep);
    ==
      s[start..j] + s[j..k] + s[k..];
    == { SliceConcat(s, start, j, k); }
      s[start..];
    }
  }

  /** One piece and one separator in front of a split that already joins back. */
  lemma JoinSplitFromStep(s: string, sep: string, start: nat, j: nat)
    requires sep != [] && start <= |s| && IndexFrom(s, sep, start) == Some(j)
    requires j + |sep| <= |s| && Join(SplitFrom(s, sep, j + |sep|), sep) == s[j + |sep|..]
    ensures Join(SplitFrom(s, sep, start), sep) == s[start..]
  {
    SplitFromStep(s, sep, start, j);
    JoinPieceBefore(s, sep, start, j, SplitFrom(s, sep, j + |sep|));
  }

  lemma {:induction false} JoinSplitFrom(s: string, sep: string, start: nat)
    requires sep != [] && start <= |s|
    ensures Join(SplitFrom(s, sep, start), sep) == s[start..]
    decreases |s| - start
  {
    match IndexFrom(s, sep, start)
    case None =>
      SplitFromNone(s, sep, start);
    case Some(j) =>
      SplitFromStep(s, sep, start, j);
      JoinSplitFrom(s, sep, j + |sep|);
      JoinSplitFromStep(s, sep, start, j);
  }

  /** Cutting `s[a..]` at `b` and `c`. */
  lemma SliceConcat(s: string, a: nat, b: nat, c: nat)
    requires a <= b <= c <= |s|
    ensures s[a..] == s[a..b] + s[b..c] + s[c..]
  {
  }

  /** Joining the pieces of a split restores the string. */
  lemma JoinSplit(s: string, sep: string)
    requires sep != []
    ensures Join(Split(s, sep), sep) == s
  {
    JoinSplitFrom(s, sep, 0);
    assert s[0..] == s;
  }

  /** A slice in which `s` has no occurrence of `sep` does not contain `sep`. */
  lemma SliceFree(s: string, sep: string, a: nat, b: nat)
    requires a <= b <= |s|
    requires forall j :: a <= j && j + |sep| <= b ==> !OccursAt(s, sep, j)
    ensures !Contains(s[a..b], sep)
  {
    forall p | 0 <= p ensures !OccursAt(s[a..b], sep, p) {
      SliceOccurs(s, sep, a, b, p);
    }
  }

  /** Putting a piece free of `sep` in front of pieces free of `sep`. */
  lemma PiecesFreeCons(x: string, t: seq<string>, sep: string)
    requires !Contains(x, sep)
    requires forall k :: 0 <= k < |t| ==> !Contains(t[k], sep)
    ensures forall k :: 0 <= k < |[x] + t| ==> !Contains(([x] + t)[k], sep)
  {
    forall k | 0 <= k < |[x] + t| ensures !Contains(([x] + t)[k], sep) {
      if k > 0 {
        assert ([x] + t)[k] == t[k - 1];
      }
    }
  }

  lemma {:induction false} SplitFromPiecesFree(s: string, sep: string, start: nat)
    requires sep != [] && start <= |s|
    ensures forall k :: 0 <= k < |SplitFrom(s, sep, start)| ==> !Contains(SplitFrom(s, sep, start)[k], sep)
    decreases |s| - start
  {
    match IndexFrom(s, sep, start)
    case None =>
      SplitFromNone(s, sep, start);
      SliceFree(s, sep, start, |s|);
      assert s[start..] == s[start..|s|];
    case Some(j) =>
      SplitFromStep(s, sep, start, j);
      SplitFromPiecesFree(s, sep, j + |sep|);
      SliceFree(s, sep, start, j);
      PiecesFreeCons(s[start..j], SplitFrom(s, sep, j + |sep|), sep);
  }

  /** No piece of a split contains the separator. */
  lemma SplitPiecesFree(s: string, sep: string)
    requires sep != []
    ensures forall k :: 0 <= k < |Split(s, sep)| ==> !Contains(Split(s, sep)[k], sep)
  {
    var r := Split(s, sep);
    assert r == SplitFrom(s, sep, 0);
    SplitFromPiecesFree(s, sep, 0);
  }

  /** A tail holding no `c` has no occurrence of `[c]`, so the search finds none. */
  lemma IndexFromNone(s: string, c: char, start: nat)
    requires start <= |s| && c !in s[start..]
    ensures IndexFrom(s, [c], start) == None
  {
    forall j | start <= j ensures !OccursAt(s, [c], j) {
      if start <= j < |s| {
        assert s[j] == s[start..][j - start];
        assert s[j..j + 1][0] == s[j];
      }
    }
  }

  /** A tail `p + [c] + tail` with no `c` in `p` has its first `[c]` right after `p`. */
  lemma IndexFromAfterPiece(s: string, c: char, start: nat, p: string, tail: string)
    requires start <= |s| && c !in p
    requires s[start..] == p + [c] + tail
    ensures IndexFrom(s, [c], start) == Some(start + |p|)
    ensures s[start..start + |p|] == p && s[start + |p| + 1..] == tail
  {
    var k := start + |p|;
    forall j | start <= j < k ensures !OccursAt(s, [c], j) {
      assert s[j] == s[start..][j - start] == p[j - start];
    }
    assert s[k] == s[start..][|p|] == c;
    assert s[k..k + 1] == [c];
    assert OccursAt(s, [c], k);
    assert s[start..k] == s[start..][..|p|];
    assert s[k + 1..] == s[start..][|p| + 1..];
  }

  lemma {:induction false} SplitJoinFrom(s: string, c: char, start: nat, pieces: seq<string>)
    requires start <= |s| && pieces != []
    requires forall k :: 0 <= k < |pieces| ==> c !in pieces[k]
    requires s[start..] == Join(pieces, [c])
    ensures SplitFrom(s, [c], start) == pieces
    decreases |pieces|
  {
    var p := pieces[0];
    if |pieces| == 1 {
      IndexFromNone(s, c, start);
      SplitFromNone(s, [c], start);
      assert s[start..] == Join(pieces, [c]) == p;
    } else {
      var rest := pieces[1..];
      var k := start + |p| + 1;
      assert Join(pieces, [c]) == p + [c] + Join(rest, [c]);
      IndexFromAfterPiece(s, c, start, p, Join(rest, [c]));
      SplitFromStep(s, [c], start, start + |p|);
      assert forall i :: 0 <= i < |rest| ==> rest[i] == pieces[i + 1];
      SplitJoinFrom(s, c, k, rest);
      assert pieces == [p] + rest;
    }
  }

  /** Splitting a join on a one-character separator that no piece contains gives back the pieces. */
  lemma SplitJoin(pieces: seq<string>, c: char)
    requires pieces != []
    requires forall k :: 0 <= k < |pieces| ==> c !in pieces[k]
    ensures Split(Join(pieces, [c]), [c]) == pieces
  {
    var s := Join(pieces, [c]);
    assert s[0..] == s;
    SplitJoinFrom(s, c, 0, pieces);
  }

  /** `SplitJoin` for a string already known to be the join. */
  lemma SplitJoinOf(s: string, pieces: seq<string>, c: char)
    requires pieces != [] && s == Join(pieces, [c])
    requires forall k :: 0 <= k < |pieces| ==> c !in pieces[k]
    ensures Split(s, [c]) == pieces
  {
    SplitJoin(pieces, c);
  }

  /** The value of `s.split(sep).pop()`. */
  function LastPiece(s: string, sep: string): (r: string)
    requires sep != []
  {
    var pieces := Split(s, sep);
    pieces[|pieces| - 1]
  }

  lemma LastOfCons<T>(h: T, t: seq<T>)
    requires t != []
    ensures ([h] + t)[|t|] == t[|t| - 1]
  {
  }

  /** The last piece of `s[start..]`. */
  function LastFrom(s: string, sep: string, start: nat): (r: string)
    requires sep != [] && start <= |s|
  {
    var t := SplitFrom(s, sep, start);
    t[|t| - 1]
  }

  /** Past the first separator from `start`, the last piece is the last piece of what follows it. */
  lemma LastFromStep(s: string, sep: string, start: nat, j: nat)
    requires sep != [] && start <= |s| && IndexFrom(s, sep, start) == Some(j)
    ensures LastFrom(s, sep, start) == LastFrom(s, sep, j + |sep|)
  {
    var t := SplitFrom(s, sep, j + |sep|);
    SplitFromStep(s, sep, start, j);
    LastOfCons(s[start..j], t);
  }

  /** The last piece of `s[start..]` is a suffix of it, and all of it when no separator follows `start`. */
  lemma {:induction false} LastFromSuffix(s: string, sep: string, start: nat)
    requires sep != [] && start <= |s|
    ensures var r := LastFrom(s, sep, start);
      && |r| <= |s| - start && r == s[|s| - |r|..]
      && (IndexFrom(s, sep, start).None? ==> r == s[start..])
    decreases |s| - start
  {
    match IndexFrom(s, sep, start)
    case None =>
    case Some(j) =>
      LastFromStep(s, sep, start, j);
      LastFromSuffix(s, sep, j + |sep|);
  }

  /** When a separator follows `start`, the last piece of `s[start..]` is preceded by one. */
  lemma {:induction false} LastFromPreceded(s: string, sep: string, start: nat)
    requires sep != [] && start <= |s| && IndexFrom(s, sep, start).Some?
    ensures var r := LastFrom(s, sep, start);
      start + |sep| <= |s| - |r| && OccursAt(s, sep, |s| - |r| - |sep|)
    decreases |s| - start
  {
    var j := IndexFrom(s, sep, start).value;
    var k := j + |sep|;
    LastFromStep(s, sep, start, j);
    LastFromSuffix(s, sep, k);
    if IndexFrom(s, sep, k).Some? {
      LastFromPreceded(s, sep, k);
    }
  }

  /**
    The last piece of a split is a suffix of `s` free of `sep`; it is all of `s`
    when `s` has no occurrence of `sep`, and is otherwise preceded by `sep`.
   */
  lemma LastPieceShape(s: string, sep: string)
    requires sep != []
    ensures var r := LastPiece(s, sep);
      && |r| <= |s| && s[|s| - |r|..] == r
      && !Contains(r, sep)
      && (!Contains(s, sep) ==> r == s)
      && (Contains(s, sep) ==> |r| + |sep| <= |s| && s[|s| - |r| - |sep|..|s| - |r|] == sep)
  {
    SplitPiecesFree(s, sep);
    LastFromSuffix(s, sep, 0);
    if IndexFrom(s, sep, 0).Some? {
      LastFromPreceded(s, sep, 0);
    }
    assert s[0..] == s;
  }

  // ---------------------------------------------------------------------------
  // Numbers and characters

  predicate IsDigit(c: char) { '0' <= c <= '9' }

  function DigitChar(d: nat): (c: char)
    requires d < 10
    ensures IsDigit(c)
  {
    "0123456789"[d]
  }

  /** The decimal rendering of a natural number, as template interpolation renders it. */
  function NatToString(n: nat): (r: string)
    ensures r != []
    ensures forall i :: 0 <= i < |r| ==> IsDigit(r[i])
  {
    if n < 10 then [DigitChar(n)] else NatToString(n / 10) + [DigitChar(n % 10)]
  }

  /** The value of a string of decimal digits, read most significant first. */
  function DigitsValue(s: string): (r: nat)
    requires forall i :: 0 <= i < |s| ==> IsDigit(s[i])
  {
    if s == [] then 0
    else
      assert IsDigit(s[|s| - 1]);
      10 * DigitsValue(s[..|s| - 1]) + ((s[|s| - 1] as int) - ('0' as int))
  }

  /** Reading the rendered digits back gives the number: the rendering loses nothing. */
  lemma {:induction false} NatToStringValue(n: nat)
    ensures DigitsValue(NatToString(n)) == n
  {
    var d := n % 10;
    assert (DigitChar(d) as int) - ('0' as int) == d;
    if n >= 10 {
      var s := NatToString(n);
      assert s[..|s| - 1] == NatToString(n / 10);
      NatToStringValue(n / 10);
    }
  }

  /** JavaScript's `length`: UTF-16 code units, two for a code point above U+FFFF. */
  function Utf16Length(s: string): (r: nat)
    ensures |s| <= r <= 2 * |s|
  {
    if s == [] then 0
    else (if s[0] as int > 0xFFFF then 2 else 1) + Utf16Length(s[1..])
  }

  /** A string of Basic Multilingual Plane characters has one code unit per character. */
  lemma {:induction false} Utf16LengthBmp(s: string)
    requires forall i :: 0 <= i < |s| ==> s[i] as int <= 0xFFFF
    ensures Utf16Length(s) == |s|
  {
    if s != [] { Utf16LengthBmp(s[1..]); }
  }

  function AsciiLower(c: char): (r: char)
    ensures 'A' <= c <= 'Z' ==> r as int == c as int + 32
    ensures !('A' <= c <= 'Z') ==> r == c
  {
    if 'A' <= c <= 'Z' then (c as int + 32) as char else c
  }

  /** `toLowerCase` on the ASCII letters; every other character is kept. */
  function ToLower(s: string): (r: string)
    ensures |r| == |s|
    ensures forall i :: 0 <= i < |s| ==> r[i] == AsciiLower(s[i])
  {
    if s == [] then [] else [AsciiLower(s[0])] + ToLower(s[1..])
  }

  lemma ToLowerIdempotent(s: string)
    ensures ToLower(ToLower(s)) == ToLower(s)
  {
  }
}
