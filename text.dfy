/**
 * The JavaScript string and path operations the backend relies on, stated over `seq<char>`:
 * truthiness and `||` defaults, ASCII `toLowerCase`, `includes`, `join`, `trim`, `split` on a
 * character-class regular expression, first-match capture of `marker(X+)`, and POSIX `path.basename`.
 */
module Text {
  import opened Wrappers

  /** JavaScript truthiness of a string that may be absent: `undefined`, `null` and `""` are falsy. */
  predicate Truthy(s: Option<string>) {
    s.Some? && s.value != ""
  }

  /** `s || fallback` for a string that may be absent. */
  function OrDefault(s: Option<string>, fallback: string): string {
    if Truthy(s) then s.value else fallback
  }

  /** `s || fallback` for a string that is always present. */
  function OrElse(s: string, fallback: string): string {
    if s != "" then s else fallback
  }

  /** The regular-expression class `\d`. */
  predicate IsDigit(c: char) {
    '0' <= c <= '9'
  }

  // ---------------------------------------------------------------------------------------------
  // toLowerCase (ASCII letters only) and includes
  // ---------------------------------------------------------------------------------------------

  function LowerChar(c: char): char {
    if 'A' <= c <= 'Z' then (c as int + 32) as char else c
  }

  /** `s.toLowerCase()`, restricted to ASCII letters. */
  function Lower(s: string): (r: string)
    ensures |r| == |s|
  {
    seq(|s|, i requires 0 <= i < |s| => LowerChar(s[i]))
  }

  /** `needle` sits in `hay` starting at index `i`. */
  predicate OccursAt(hay: string, needle: string, i: int) {
    0 <= i && i + |needle| <= |hay| && hay[i..i + |needle|] == needle
  }

  /** `hay.includes(needle)`, searched from the left. */
  predicate Contains(hay: string, needle: string)
    decreases |hay|
  {
    needle <= hay || (|hay| > 0 && Contains(hay[1..], needle))
  }

  /** The left-to-right search finds `needle` exactly when it occurs at some position. */
  lemma {:induction false} ContainsIffOccurs(hay: string, needle: string)
    ensures Contains(hay, needle) <==> exists i :: OccursAt(hay, needle, i)
    decreases |hay|
  {
    if Contains(hay, needle) {
      if needle <= hay {
        assert OccursAt(hay, needle, 0);
      } else {
        ContainsIffOccurs(hay[1..], needle);
        var i :| OccursAt(hay[1..], needle, i);
        OccursShift(hay, needle, i);
      }
    }
    if exists i :: OccursAt(hay, needle, i) {
      var i :| OccursAt(hay, needle, i);
      if i == 0 {
        assert needle <= hay;
      } else {
        ContainsIffOccurs(hay[1..], needle);
        OccursShift(hay, needle, i - 1);
      }
    }
  }

  /** An occurrence in the tail of `hay` is an occurrence one position further on in `hay`. */
  lemma {:induction false} OccursShift(hay: string, needle: string, i: nat)
    requires |hay| > 0
    ensures OccursAt(hay[1..], needle, i) <==> OccursAt(hay, needle, i + 1)
  {
    if i + |needle| <= |hay[1..]| {
      assert hay[1..][i..i + |needle|] == hay[i + 1..i + 1 + |needle|];
    }
  }

  // ---------------------------------------------------------------------------------------------
  // join and line-by-line accumulation
  // ---------------------------------------------------------------------------------------------

  /** `parts.join(sep)`. */
  function Join(parts: seq<string>, sep: string): string
    decreases |parts|
  {
    if |parts| == 0 then ""
    else if |parts| == 1 then parts[0]
    else parts[0] + sep + Join(parts[1..], sep)
  }

  /** Joining two non-empty lists puts exactly one separator between their joins. */
  lemma {:induction false} JoinAppend(a: seq<string>, b: seq<string>, sep: string)
    requires a != [] && b != []
    ensures Join(a + b, sep) == Join(a, sep) + sep + Join(b, sep)
    decreases |a|
  {
    if |a| == 1 {
      assert (a + b)[1..] == b;
    } else {
      assert (a + b)[1..] == a[1..] + b;
      JoinAppend(a[1..], b, sep);
    }
  }

  /** One line `marker + item + "\n"` per item, in order. */
  function BulletLines(marker: string, items: seq<string>): string
    decreases |items|
  {
    if items == [] then "" else marker + items[0] + "\n" + BulletLines(marker, items[1..])
  }

  /** Appending one item appends exactly its line: the shape of a `forEach` that does `text += …`. */
  lemma {:induction false} BulletLinesSnoc(marker: string, items: seq<string>, x: string)
    ensures BulletLines(marker, items + [x]) == BulletLines(marker, items) + marker + x + "\n"
    decreases |items|
  {
    if items == [] {
      assert items + [x] == [x];
    } else {
      assert (items + [x])[1..] == items[1..] + [x];
      BulletLinesSnoc(marker, items[1..], x);
    }
  }
  /** `items.forEach(item => { text += `${marker}${item}\n`; })`: one line per item, appended in order. */
  method AppendBulletLines(text: string, marker: string, items: seq<string>) returns (r: string)
    ensures r == text + BulletLines(marker, items)
  {
    r := text;
    for i := 0 to |items|
      invariant r == text + BulletLines(marker, items[..i])
    {
      ghost var done := BulletLines(marker, items[..i]);
      BulletLinesSnoc(marker, items[..i], items[i]);
      assert items[..i + 1] == items[..i] + [items[i]];
      r := r + marker + items[i] + "\n";
      assert r == text + (done + marker + items[i] + "\n");
    }
    assert items[..|items|] == items;
  }


  /** `marker + items.join("\n" + marker) + "\n"` is one bullet line per item. */
  lemma {:induction false} JoinedBullets(marker: string, items: seq<string>)
    requires items != []
    ensures marker + Join(items, "\n" + marker) + "\n" == BulletLines(marker, items)
    decreases |items|
  {
    if |items| > 1 {
      JoinedBullets(marker, items[1..]);
    }
  }

  // ---------------------------------------------------------------------------------------------
  // trim
  // ---------------------------------------------------------------------------------------------

  /** The WhiteSpace and LineTerminator code points of ECMAScript, which `trim` removes. */
  predicate IsJsSpace(c: char) {
    c == ' ' || c == '\t' || c == '\n' || c == '\r' || c == '\U{000B}' || c == '\U{000C}'
    || c == '\U{00A0}' || c == '\U{FEFF}' || c == '\U{1680}' || ('\U{2000}' <= c <= '\U{200A}')
    || c == '\U{2028}' || c == '\U{2029}' || c == '\U{202F}' || c == '\U{205F}' || c == '\U{3000}'
  }

  function TrimStart(s: string): (r: string)
    ensures |r| <= |s| && r == s[|s| - |r|..]
    ensures r != [] ==> !IsJsSpace(r[0])
    ensures forall i :: 0 <= i < |s| - |r| ==> IsJsSpace(s[i])
    decreases |s|
  {
    if |s| > 0 && IsJsSpace(s[0]) then TrimStart(s[1..]) else s
  }

  function TrimEnd(s: string): (r: string)
    ensures |r| <= |s| && r == s[..|r|]
    ensures r != [] ==> !IsJsSpace(r[|r| - 1])
    ensures forall i :: |r| <= i < |s| ==> IsJsSpace(s[i])
    decreases |s|
  {
    if |s| > 0 && IsJsSpace(s[|s| - 1]) then TrimEnd(s[..|s| - 1]) else s
  }

  /**
   * `r` sits in `s` at `i`, everything before and after it is white space, and it neither starts
   * nor ends with white space: exactly one `r` satisfies this for each `s`.
   */
  predicate IsTrimOf(s: string, r: string, i: nat) {
    && OccursAt(s, r, i)
    && (forall k :: 0 <= k < i ==> IsJsSpace(s[k]))
    && (forall k :: i + |r| <= k < |s| ==> IsJsSpace(s[k]))
    && (r != [] ==> !IsJsSpace(r[0]) && !IsJsSpace(r[|r| - 1]))
  }

  /** `s.trim()`: `s` without its leading and trailing white space. */
  function Trim(s: string): (r: string)
    ensures exists i :: OccursAt(s, r, i)
    ensures forall c :: c in r ==> c in s
    ensures r != [] ==> !IsJsSpace(r[0]) && !IsJsSpace(r[|r| - 1])
  {
    var a := TrimStart(s);
    var r := TrimEnd(a);
    assert OccursAt(s, r, |s| - |a|);
    r
  }

  /** What `Trim` removes is white space only: the result sits in `s` with only white space around it. */
  lemma {:induction false} TrimDescribed(s: string)
    ensures IsTrimOf(s, Trim(s), |s| - |TrimStart(s)|)
  {
    var a := TrimStart(s);
    var r := TrimEnd(a);
    var i := |s| - |a|;
    assert r == s[i..i + |r|];
    forall k | i + |r| <= k < |s| ensures IsJsSpace(s[k]) {
      assert s[k] == a[k - i];
    }
  }

  /** The trim description determines the result: whatever satisfies it is `Trim(s)`. */
  lemma {:induction false} TrimUnique(s: string, r: string, i: nat)
    requires IsTrimOf(s, r, i)
    ensures r == Trim(s)
  {
    var t, j := Trim(s), |s| - |TrimStart(s)|;
    TrimDescribed(s);
    assert r != [] ==> !IsJsSpace(s[i]) && !IsJsSpace(s[i + |r| - 1]);
    assert t != [] ==> !IsJsSpace(s[j]) && !IsJsSpace(s[j + |t| - 1]);
    if r != [] && t != [] {
      assert i == j;
      assert |r| == |t|;
    }
  }

  // ---------------------------------------------------------------------------------------------
  // split on runs of a character class
  // ---------------------------------------------------------------------------------------------

  /** The end of the run of characters satisfying `accept` that starts at `from`. */
  function RunEnd(s: string, from: nat, accept: char -> bool): (k: nat)
    requires from <= |s|
    ensures from <= k <= |s|
    ensures forall m :: from <= m < k ==> accept(s[m])
    ensures k < |s| ==> !accept(s[k])
    decreases |s| - from
  {
    if from < |s| && accept(s[from]) then RunEnd(s, from + 1, accept) else from
  }

  /** The first index at or after `from` whose character satisfies `stop` (`|s|` if none). */
  function SkipUntil(s: string, from: nat, stop: char -> bool): (k: nat)
    requires from <= |s|
    ensures from <= k <= |s|
    ensures forall m :: from <= m < k ==> !stop(s[m])
    ensures k < |s| ==> stop(s[k])
    decreases |s| - from
  {
    if from < |s| && !stop(s[from]) then SkipUntil(s, from + 1, stop) else from
  }

  /**
   * `s.split(/[…]+/)` for the character class `isSep`: the pieces between maximal runs of
   * separators, with an empty first (last) piece when `s` starts (ends) with a separator.
   */
  function SplitOnRuns(s: string, isSep: char -> bool): (pieces: seq<string>)
    ensures pieces != []
    ensures forall i, k :: 0 <= i < |pieces| && 0 <= k < |pieces[i]| ==> !isSep(pieces[i][k])
    decreases |s|
  {
    var i := SkipUntil(s, 0, isSep);
    if i == |s| then [s]
    else
      var j := RunEnd(s, i, isSep);
      [s[..i]] + SplitOnRuns(s[j..], isSep)
  }

  /** The pieces with the separator runs between them: `pieces[0] + runs[0] + pieces[1] + …`. */
  function Interleave(pieces: seq<string>, runs: seq<string>): string
    requires |pieces| == |runs| + 1
    decreases |runs|
  {
    if runs == [] then pieces[0] else pieces[0] + runs[0] + Interleave(pieces[1..], runs[1..])
  }

  /**
   * `s` is `pieces` joined by `runs`: each run is a non-empty stretch of separators, no piece holds
   * a separator and only the first and the last piece may be empty, so no two runs touch and each
   * run is maximal.
   */
  predicate IsSplitOf(s: string, pieces: seq<string>, runs: seq<string>, isSep: char -> bool) {
    && |pieces| == |runs| + 1
    && (forall n, k :: 0 <= n < |pieces| && 0 <= k < |pieces[n]| ==> !isSep(pieces[n][k]))
    && (forall n :: 0 < n < |pieces| - 1 ==> pieces[n] != [])
    && (forall n :: 0 <= n < |runs| ==> runs[n] != [] && forall k :: 0 <= k < |runs[n]| ==> isSep(runs[n][k]))
    && s == Interleave(pieces, runs)
  }

  /** A text that does not start with a separator splits into a non-empty first piece. */
  lemma {:induction false} SplitFirstPiece(t: string, isSep: char -> bool)
    requires t != [] && !isSep(t[0])
    ensures SplitOnRuns(t, isSep)[0] != []
  {
    var i := SkipUntil(t, 0, isSep);
    assert i > 0;
    if i < |t| {
      assert SplitOnRuns(t, isSep)[0] == t[..i];
    }
  }

  /** The input is its pieces with a non-empty run of separators between each two. */
  lemma {:induction false} SplitOnRunsInterleaves(s: string, isSep: char -> bool)
    ensures exists runs :: IsSplitOf(s, SplitOnRuns(s, isSep), runs, isSep)
    decreases |s|
  {
    var pieces := SplitOnRuns(s, isSep);
    var i := SkipUntil(s, 0, isSep);
    if i == |s| {
      assert pieces == [s];
      assert IsSplitOf(s, pieces, [], isSep);
    } else {
      var j := RunEnd(s, i, isSep);
      var rest := SplitOnRuns(s[j..], isSep);
      SplitOnRunsInterleaves(s[j..], isSep);
      var runs' :| IsSplitOf(s[j..], rest, runs', isSep);
      SplitOnRunsStep(s, isSep);
      SeparatorRun(s, i, isSep);
      if |rest| > 1 {
        SplitFirstPiece(s[j..], isSep);
      }
      assert s == s[..i] + s[i..j] + s[j..];
      IsSplitCons(s[..i], s[i..j], s[j..], rest, runs', isSep);
    }
  }

  /** The run that starts at a separator is non-empty, all separators, and followed by a non-separator or the end. */
  lemma {:induction false} SeparatorRun(s: string, i: nat, isSep: char -> bool)
    requires i < |s| && isSep(s[i])
    ensures var j := RunEnd(s, i, isSep);
      && s[i..j] != [] && (forall k :: 0 <= k < |s[i..j]| ==> isSep(s[i..j][k]))
      && (j < |s| ==> s[j..] != [] && !isSep(s[j..][0]))
  {
    var j := RunEnd(s, i, isSep);
    forall k | 0 <= k < |s[i..j]| ensures isSep(s[i..j][k]) {
      assert s[i..j][k] == s[i + k];
    }
  }

  /** A piece and a separator run in front of a split give a split of the whole. */
  lemma {:induction false} IsSplitCons(piece: string, run: string, tail: string, rest: seq<string>, runs: seq<string>,
                                       isSep: char -> bool)
    requires IsSplitOf(tail, rest, runs, isSep)
    requires forall k :: 0 <= k < |piece| ==> !isSep(piece[k])
    requires run != [] && forall k :: 0 <= k < |run| ==> isSep(run[k])
    requires |rest| > 1 ==> rest[0] != []
    ensures IsSplitOf(piece + run + tail, [piece] + rest, [run] + runs, isSep)
  {
    var pieces, runs2 := [piece] + rest, [run] + runs;
    assert pieces[1..] == rest && runs2[1..] == runs;
    assert Interleave(pieces, runs2) == piece + run + tail;
    forall n | 0 <= n < |runs2|
      ensures runs2[n] != [] && forall k :: 0 <= k < |runs2[n]| ==> isSep(runs2[n][k])
    {
      if n > 0 {
        assert runs2[n] == runs[n - 1];
      }
    }
    forall n, k | 0 <= n < |pieces| && 0 <= k < |pieces[n]| ensures !isSep(pieces[n][k]) {
      if n > 0 {
        assert pieces[n] == rest[n - 1];
      }
    }
    forall n | 0 < n < |pieces| - 1 ensures pieces[n] != [] {
      assert pieces[n] == rest[n - 1];
    }
  }

  /** Dropping the first piece and run of a split leaves a split of the rest. */
  lemma {:induction false} IsSplitTail(s: string, pieces: seq<string>, runs: seq<string>, isSep: char -> bool)
    requires IsSplitOf(s, pieces, runs, isSep) && runs != []
    ensures s == pieces[0] + runs[0] + Interleave(pieces[1..], runs[1..])
    ensures IsSplitOf(Interleave(pieces[1..], runs[1..]), pieces[1..], runs[1..], isSep)
  {
    var p, r := pieces[1..], runs[1..];
    forall n, k | 0 <= n < |p| && 0 <= k < |p[n]| ensures !isSep(p[n][k]) {
      assert p[n] == pieces[n + 1];
    }
    forall n | 0 < n < |p| - 1 ensures p[n] != [] {
      assert p[n] == pieces[n + 1];
    }
    forall n | 0 <= n < |r| ensures r[n] != [] && forall k :: 0 <= k < |r[n]| ==> isSep(r[n][k]) {
      assert r[n] == runs[n + 1];
    }
  }

  /** An interleaving begins with its first piece. */
  lemma {:induction false} InterleaveStartsWithPiece(pieces: seq<string>, runs: seq<string>)
    requires |pieces| == |runs| + 1
    ensures pieces[0] <= Interleave(pieces, runs)
  {
  }

  /** After the first run of a split, the text goes on with a non-separator or ends. */
  lemma {:induction false} SplitTailStartsClean(s: string, pieces: seq<string>, runs: seq<string>, isSep: char -> bool)
    requires IsSplitOf(s, pieces, runs, isSep) && runs != []
    ensures var tail := Interleave(pieces[1..], runs[1..]); tail != [] ==> !isSep(tail[0])
  {
    var tail := Interleave(pieces[1..], runs[1..]);
    if |runs| > 1 {
      assert pieces[1] != [];
      InterleaveStartsWithPiece(pieces[1..], runs[1..]);
      assert tail[0] == pieces[1][0];
    } else {
      assert tail == pieces[1];
    }
  }

  /** On a split with at least one run, `SplitOnRuns` cuts exactly around the first run. */
  lemma {:induction false} SplitHeadIndices(s: string, pieces: seq<string>, runs: seq<string>, isSep: char -> bool)
    requires IsSplitOf(s, pieces, runs, isSep) && runs != []
    ensures SkipUntil(s, 0, isSep) == |pieces[0]|
    ensures RunEnd(s, |pieces[0]|, isSep) == |pieces[0]| + |runs[0]|
    ensures s[..|pieces[0]|] == pieces[0] && s[|pieces[0]| + |runs[0]|..] == Interleave(pieces[1..], runs[1..])
  {
    IsSplitTail(s, pieces, runs, isSep);
    SplitTailStartsClean(s, pieces, runs, isSep);
    var p0, r0, tail := pieces[0], runs[0], Interleave(pieces[1..], runs[1..]);
    var e := |p0| + |r0|;
    assert s[..|p0|] == p0 && s[|p0|..e] == r0 && s[e..] == tail;
    assert forall k :: 0 <= k < |p0| ==> !isSep(s[k]) by {
      forall k | 0 <= k < |p0| ensures !isSep(s[k]) {
        assert s[k] == p0[k];
      }
    }
    assert isSep(s[|p0|]) by {
      assert s[|p0|] == r0[0];
    }
    assert forall k :: |p0| <= k < e ==> isSep(s[k]) by {
      forall k | |p0| <= k < e ensures isSep(s[k]) {
        assert s[k] == r0[k - |p0|];
      }
    }
    assert e < |s| ==> !isSep(s[e]) by {
      if e < |s| {
        assert s[e] == tail[0];
      }
    }
  }

  /**
   * The split description has exactly one solution: every way of writing `s` as pieces joined by
   * separator runs, with no separator in a piece and no empty inner piece, is `SplitOnRuns`.
   */
  lemma {:induction false} SplitUnique(s: string, pieces: seq<string>, runs: seq<string>, isSep: char -> bool)
    requires IsSplitOf(s, pieces, runs, isSep)
    ensures pieces == SplitOnRuns(s, isSep)
    decreases |runs|
  {
    if runs == [] {
      SplitWithoutSeparators(s, isSep);
    } else {
      IsSplitTail(s, pieces, runs, isSep);
      SplitHeadIndices(s, pieces, runs, isSep);
      var tail := Interleave(pieces[1..], runs[1..]);
      SplitUnique(tail, pieces[1..], runs[1..], isSep);
      SplitOnRunsStep(s, isSep);
      assert pieces == [pieces[0]] + pieces[1..];
    }
  }

  /** A text without separators is one piece. */
  lemma {:induction false} SplitWithoutSeparators(s: string, isSep: char -> bool)
    requires forall k :: 0 <= k < |s| ==> !isSep(s[k])
    ensures SplitOnRuns(s, isSep) == [s]
  {
    assert SkipUntil(s, 0, isSep) == |s|;
  }

  /** One step of `SplitOnRuns`: the text before the first run, then the split of what follows it. */
  lemma {:induction false} SplitOnRunsStep(s: string, isSep: char -> bool)
    requires SkipUntil(s, 0, isSep) < |s|
    ensures var i := SkipUntil(s, 0, isSep);
      SplitOnRuns(s, isSep) == [s[..i]] + SplitOnRuns(s[RunEnd(s, i, isSep)..], isSep)
  {
  }

  /** The characters of `s` that do not satisfy `drop`, in order. */
  function Without(s: string, drop: char -> bool): string
    decreases |s|
  {
    if s == [] then [] else (if drop(s[0]) then [] else [s[0]]) + Without(s[1..], drop)
  }

  /** The pieces written one after another. */
  function Concat(parts: seq<string>): string
    decreases |parts|
  {
    if parts == [] then "" else parts[0] + Concat(parts[1..])
  }

  lemma {:induction false} WithoutAppend(a: string, b: string, drop: char -> bool)
    ensures Without(a + b, drop) == Without(a, drop) + Without(b, drop)
    decreases |a|
  {
    if a != [] {
      assert (a + b)[1..] == a[1..] + b;
      WithoutAppend(a[1..], b, drop);
    } else {
      assert a + b == b;
    }
  }

  lemma {:induction false} WithoutKeeps(s: string, drop: char -> bool)
    requires forall k :: 0 <= k < |s| ==> !drop(s[k])
    ensures Without(s, drop) == s
    decreases |s|
  {
    if s != [] {
      WithoutKeeps(s[1..], drop);
    }
  }

  lemma {:induction false} WithoutDrops(s: string, drop: char -> bool)
    requires forall k :: 0 <= k < |s| ==> drop(s[k])
    ensures Without(s, drop) == []
    decreases |s|
  {
    if s != [] {
      WithoutDrops(s[1..], drop);
    }
  }

  /** Dropping the characters of a run of separators that follows a separator-free head. */
  lemma {:induction false} WithoutAcrossRun(s: string, i: nat, j: nat, drop: char -> bool)
    requires i <= j <= |s|
    requires forall k :: 0 <= k < i ==> !drop(s[k])
    requires forall k :: i <= k < j ==> drop(s[k])
    ensures Without(s, drop) == s[..i] + Without(s[j..], drop)
  {
    var head, run, rest := s[..i], s[i..j], s[j..];
    assert s == head + run + rest;
    assert forall k :: 0 <= k < |head| ==> !drop(head[k]) by {
      forall k | 0 <= k < |head| ensures !drop(head[k]) {
        assert head[k] == s[k];
      }
    }
    assert forall k :: 0 <= k < |run| ==> drop(run[k]) by {
      forall k | 0 <= k < |run| ensures drop(run[k]) {
        assert run[k] == s[i + k];
      }
    }
    WithoutHeadRun(head, run, drop);
    WithoutAppend(head + run, rest, drop);
  }

  lemma {:induction false} WithoutHeadRun(head: string, run: string, drop: char -> bool)
    requires forall k :: 0 <= k < |head| ==> !drop(head[k])
    requires forall k :: 0 <= k < |run| ==> drop(run[k])
    ensures Without(head + run, drop) == head
  {
    WithoutAppend(head, run, drop);
    WithoutKeeps(head, drop);
    WithoutDrops(run, drop);
  }

  lemma {:induction false} ConcatCons(first: string, rest: seq<string>)
    ensures Concat([first] + rest) == first + Concat(rest)
  {
    assert ([first] + rest)[1..] == rest;
  }

  /** Splitting loses the separators and nothing else: the pieces, written back to back, are `s` without them. */
  lemma {:induction false} SplitKeepsText(s: string, isSep: char -> bool)
    ensures Concat(SplitOnRuns(s, isSep)) == Without(s, isSep)
    decreases |s|
  {
    var i := SkipUntil(s, 0, isSep);
    if i == |s| {
      WithoutKeeps(s, isSep);
    } else {
      var j := RunEnd(s, i, isSep);
      SplitKeepsText(s[j..], isSep);
      WithoutAcrossRun(s, i, j, isSep);
      ConcatCons(s[..i], SplitOnRuns(s[j..], isSep));
    }
  }

  // ---------------------------------------------------------------------------------------------
  // first match of the regular expression marker(X+)
  // ---------------------------------------------------------------------------------------------

  /** At index `i`, `s` holds `marker` followed by at least one character of the class `accept`. */
  predicate FollowedAt(s: string, marker: string, accept: char -> bool, i: nat) {
    i + |marker| < |s| && s[i..i + |marker|] == marker && accept(s[i + |marker|])
  }

  /**
   * `cap` is what `s.match(/marker(X+)/)[1]` captures for the class X = `accept` when the match
   * starts at `i`: the leftmost starting point, and the greedy (maximal) run of X after the marker.
   */
  predicate IsFirstCapture(s: string, marker: string, accept: char -> bool, i: nat, cap: string) {
    && FollowedAt(s, marker, accept, i)
    && (forall k: nat :: k < i ==> !FollowedAt(s, marker, accept, k))
    && i + |marker| + |cap| <= |s|
    && s[i + |marker|..i + |marker| + |cap|] == cap
    && (forall m :: 0 <= m < |cap| ==> accept(cap[m]))
    && (i + |marker| + |cap| == |s| || !accept(s[i + |marker| + |cap|]))
  }

  /** The leftmost index at or after `from` at which `marker` is followed by a character of `accept`. */
  function FindFollowed(s: string, marker: string, accept: char -> bool, from: nat): (r: Option<nat>)
    ensures r.Some? ==> from <= r.value && FollowedAt(s, marker, accept, r.value)
    ensures r.Some? ==> forall k: nat :: from <= k < r.value ==> !FollowedAt(s, marker, accept, k)
    ensures r.None? ==> forall k: nat :: from <= k ==> !FollowedAt(s, marker, accept, k)
    decreases |s| - from
  {
    if from + |marker| >= |s| then None
    else if FollowedAt(s, marker, accept, from) then Some(from)
    else FindFollowed(s, marker, accept, from + 1)
  }

  /** The group of the first match of `marker(X+)` in `s`, or `None` when the expression does not match. */
  function CaptureAfter(s: string, marker: string, accept: char -> bool): (r: Option<string>)
    ensures r.None? <==> forall k: nat :: !FollowedAt(s, marker, accept, k)
    ensures r.Some? ==> exists i: nat :: IsFirstCapture(s, marker, accept, i, r.value)
    ensures r.Some? ==> r.value != [] && forall m :: 0 <= m < |r.value| ==> accept(r.value[m])
  {
    match FindFollowed(s, marker, accept, 0)
    case None => None
    case Some(i) =>
      var start := i + |marker|;
      var cap := s[start..RunEnd(s, start, accept)];
      assert IsFirstCapture(s, marker, accept, i, cap);
      Some(cap)
  }

  /** A run of `accept` read at `start` is no longer than a run that stops at a non-`accept` character or the end. */
  lemma {:induction false} RunNotLonger(s: string, accept: char -> bool, start: nat, stopped: string, run: string)
    requires start + |stopped| <= |s| && s[start..start + |stopped|] == stopped
    requires start + |stopped| == |s| || !accept(s[start + |stopped|])
    requires start + |run| <= |s| && s[start..start + |run|] == run
    requires forall m :: 0 <= m < |run| ==> accept(run[m])
    ensures |run| <= |stopped|
  {
    forall k | start <= k < start + |run| ensures accept(s[k]) {
      assert s[k] == run[k - start];
    }
  }

  /** At most one starting point and one capture satisfy the first-match description. */
  lemma {:induction false} FirstCaptureUnique(s: string, marker: string, accept: char -> bool, i: nat, cap: string, j: nat, cap': string)
    requires IsFirstCapture(s, marker, accept, i, cap)
    requires IsFirstCapture(s, marker, accept, j, cap')
    ensures i == j && cap == cap'
  {
    assert j < i ==> !FollowedAt(s, marker, accept, j);
    assert i < j ==> !FollowedAt(s, marker, accept, i);
    var start := i + |marker|;
    RunNotLonger(s, accept, start, cap, cap');
    RunNotLonger(s, accept, start, cap', cap);
  }

  /** The first-match description determines the capture: a match shown to be the first is the one returned. */
  lemma {:induction false} CaptureOfFirstMatch(s: string, marker: string, accept: char -> bool, i: nat, cap: string)
    requires IsFirstCapture(s, marker, accept, i, cap)
    ensures CaptureAfter(s, marker, accept) == Some(cap)
  {
    var found := CaptureAfter(s, marker, accept).value;
    var j: nat :| IsFirstCapture(s, marker, accept, j, found);
    FirstCaptureUnique(s, marker, accept, i, cap, j, found);
  }

  // ---------------------------------------------------------------------------------------------
  // path.basename (POSIX)
  // ---------------------------------------------------------------------------------------------

  function StripTrailingSlashes(p: string): (r: string)
    ensures r <= p
    ensures r == [] || r[|r| - 1] != '/'
    decreases |p|
  {
    if p != [] && p[|p| - 1] == '/' then StripTrailingSlashes(p[..|p| - 1]) else p
  }

  /** The characters after the last `/` of `p`. */
  function LastSegment(p: string): (r: string)
    ensures '/' !in r
    ensures |r| <= |p| && r == p[|p| - |r|..]
    decreases |p|
  {
    if p == [] || p[|p| - 1] == '/' then [] else LastSegment(p[..|p| - 1]) + [p[|p| - 1]]
  }

  /** `path.basename(p)`: the last segment once trailing slashes are removed; never contains `/`. */
  function Basename(p: string): (r: string)
    ensures '/' !in r
  {
    LastSegment(StripTrailingSlashes(p))
  }

  lemma {:induction false} LastSegmentAfterSlash(dir: string, name: string)
    requires '/' !in name
    ensures LastSegment(dir + "/" + name) == name
    decreases |name|
  {
    if name != [] {
      var p := dir + "/" + name;
      assert p[..|p| - 1] == dir + "/" + name[..|name| - 1];
      assert p[|p| - 1] == name[|name| - 1];
      LastSegmentAfterSlash(dir, name[..|name| - 1]);
      assert name[..|name| - 1] + [name[|name| - 1]] == name;
    }
  }

  /** The basename of `dir/name` is `name` when `name` is a non-empty file name. */
  lemma {:induction false} BasenameOfJoined(dir: string, name: string)
    requires name != [] && '/' !in name
    ensures Basename(dir + "/" + name) == name
  {
    var p := dir + "/" + name;
    assert p[|p| - 1] == name[|name| - 1];
    assert StripTrailingSlashes(p) == p;
    LastSegmentAfterSlash(dir, name);
  }
}
