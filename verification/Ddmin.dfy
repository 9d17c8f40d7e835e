/**
 The delta-debugging minimiser: a line phase with growing granularity, then a character phase, over an
 arbitrary predicate on source texts.
 */
module Ddmin {
  import opened Basics

  type Predicate = string -> bool

  // ---- lines ----

  /** The text up to the first newline, if there is one. */
  function FirstNewline(s: string): (n: nat)
    ensures n <= |s|
    ensures n < |s| ==> s[n] == '\n'
    ensures forall i :: 0 <= i < n ==> s[i] != '\n'
  {
    if s == "" || s[0] == '\n' then 0 else 1 + FirstNewline(s[1..])
  }

  function DropCarriageReturn(line: string): string {
    if line != "" && line[|line| - 1] == '\r' then line[..|line| - 1] else line
  }

  /** Lines split at newlines, each without a trailing carriage return; no empty line after a last newline. */
  function Lines(s: string): seq<string>
    decreases |s|
  {
    if s == "" then []
    else
      var n := FirstNewline(s);
      if n == |s| then [s]
      else [DropCarriageReturn(s[..n])] + Lines(s[n + 1..])
  }

  function Join(parts: seq<string>): string {
    if parts == [] then ""
    else if |parts| == 1 then parts[0]
    else parts[0] + "\n" + Join(parts[1..])
  }

  /** The text the line phase tests: lines joined, with a final newline. */
  function Unlines(parts: seq<string>): string {
    Join(parts) + "\n"
  }

  predicate NewlineTerminated(s: string) {
    s != "" && s[|s| - 1] == '\n'
  }

  predicate CrLfAt(s: string, i: int) {
    0 <= i < |s| - 1 && s[i] == '\r' && s[i + 1] == '\n'
  }

  /** A carriage return just before a newline. A carriage return anywhere else is an ordinary character. */
  predicate HasCrLf(s: string) {
    exists i :: 0 <= i < |s| - 1 && CrLfAt(s, i)
  }

  /** What a line and the text after its newline say of the whole. */
  lemma CrLfSplits(line: string, rest: string)
    requires '\n' !in line
    ensures HasCrLf(line + "\n" + rest) <==> DropCarriageReturn(line) != line || HasCrLf(rest)
  {
    var s, n := line + "\n" + rest, |line|;
    if DropCarriageReturn(line) != line {
      assert CrLfAt(s, n - 1);
    }
    forall i | 0 <= i < |rest| - 1
      ensures CrLfAt(rest, i) <==> CrLfAt(s, n + 1 + i)
    {
      ShiftedCrLf(line, rest, i);
    }
    forall i | 0 <= i <= n && CrLfAt(s, i)
      ensures DropCarriageReturn(line) != line
    {
      CrLfInLine(line, rest, i);
    }
    if i :| 0 <= i < |s| - 1 && CrLfAt(s, i) {
      assert i > n ==> CrLfAt(s, n + 1 + (i - n - 1)) && CrLfAt(rest, i - n - 1);
    }
  }

  lemma ShiftedCrLf(line: string, rest: string, i: int)
    requires 0 <= i < |rest| - 1
    ensures CrLfAt(rest, i) <==> CrLfAt(line + "\n" + rest, |line| + 1 + i)
  {
    var s, k := line + "\n" + rest, |line| + 1;
    assert s[k + i] == rest[i] && s[k + i + 1] == rest[i + 1];
  }

  lemma CrLfInLine(line: string, rest: string, i: int)
    requires '\n' !in line && i <= |line| && CrLfAt(line + "\n" + rest, i)
    ensures DropCarriageReturn(line) != line
  {
    var s := line + "\n" + rest;
    assert s[|line|] == '\n';
    assert forall k :: 0 <= k < |line| ==> s[k] == line[k] && s[k] in line;
  }

  /** Joining the lines of a text gives it back exactly if it ends with a newline and has no carriage return before one. */
  lemma {:induction false} UnlinesOfLines(s: string)
    ensures Unlines(Lines(s)) == s <==> NewlineTerminated(s) && !HasCrLf(s)
    ensures |Unlines(Lines(s))| <= if NewlineTerminated(s) then |s| else |s| + 1
    decreases |s|, 1
  {
    hide HasCrLf;
    var n := FirstNewline(s);
    if n == |s| {
      NewlineLast(Lines(s));
    } else {
      var line, rest := s[..n], s[n + 1..];
      assert s == line + "\n" + rest;
      UnlinesOfSplit(line, rest, s);
    }
  }

  lemma NewlineLast(parts: seq<string>)
    ensures NewlineTerminated(Unlines(parts))
  {
  }

  lemma FirstNewlineAfter(line: string, rest: string)
    requires '\n' !in line
    ensures FirstNewline(line + "\n" + rest) == |line|
  {
    var s := line + "\n" + rest;
    assert s[|line|] == '\n';
    assert forall i :: 0 <= i < |line| ==> s[i] == line[i] && s[i] in line;
  }

  lemma LinesOfSplit(line: string, rest: string)
    requires '\n' !in line
    ensures Lines(line + "\n" + rest) == [DropCarriageReturn(line)] + Lines(rest)
  {
    var s, n := line + "\n" + rest, |line|;
    FirstNewlineAfter(line, rest);
    assert s[..n] == line && s[n + 1..] == rest;
  }

  lemma NoLines(s: string)
    ensures Lines(s) == [] <==> s == ""
  {
  }

  lemma UnlinesCons(kept: string, rest: seq<string>)
    ensures Unlines([kept] + rest) == kept + "\n" + if rest == [] then "" else Unlines(rest)
  {
    if rest == [] {
      assert [kept] + [] == [kept];
    } else {
      JoinCons(kept, rest);
      assert kept + "\n" + Join(rest) + "\n" == kept + "\n" + (Join(rest) + "\n");
    }
  }

  lemma {:induction false} UnlinesOfSplit(line: string, rest: string, s: string)
    requires s == line + "\n" + rest && '\n' !in line
    ensures Unlines(Lines(s)) == s <==> NewlineTerminated(s) && !HasCrLf(s)
    ensures |Unlines(Lines(s))| <= if NewlineTerminated(s) then |s| else |s| + 1
    decreases |s|, 0
  {
    hide HasCrLf, Lines, DropCarriageReturn, Unlines, Join, FirstNewline;
    var kept, joined := DropCarriageReturn(line), if rest == "" then "" else Unlines(Lines(rest));
    LinesOfSplit(line, rest);
    CrLfSplits(line, rest);
    NoCrLfInNothing();
    NoLines(rest);
    UnlinesCons(kept, Lines(rest));
    SameSplit(kept, joined, line, rest);
    if rest != "" {
      UnlinesOfLines(rest);
      assert s[|s| - 1] == rest[|rest| - 1];
    }
  }

  lemma NoCrLfInNothing()
    ensures !HasCrLf("")
  {
  }

  lemma SameSplit(kept: string, joined: string, line: string, rest: string)
    requires kept == DropCarriageReturn(line)
    ensures |kept| <= |line|
    ensures kept + "\n" + joined == line + "\n" + rest <==> kept == line && joined == rest
  {
    var a, b, n := kept + "\n" + joined, line + "\n" + rest, |line|;
    assert b[n + 1..] == rest;
    if kept != line {
      assert a[n - 1] == '\n' && b[n - 1] == '\r';
    } else {
      assert a[n + 1..] == joined;
    }
  }

  lemma JoinCons(first: string, rest: seq<string>)
    requires rest != []
    ensures Join([first] + rest) == first + "\n" + Join(rest)
  {
    assert ([first] + rest)[1..] == rest;
  }

  ghost predicate NewlineFree(parts: seq<string>) {
    forall line :: line in parts ==> '\n' !in line
  }

  lemma {:induction false} LinesAreNewlineFree(s: string)
    ensures NewlineFree(Lines(s))
    decreases |s|
  {
    var n := FirstNewline(s);
    if s != "" && n < |s| {
      LinesAreNewlineFree(s[n + 1..]);
    }
  }

  /** Joined lines are split into as many lines. */
  lemma {:induction false} LinesOfUnlines(parts: seq<string>)
    requires parts != [] && NewlineFree(parts)
    ensures |Lines(Unlines(parts))| == |parts|
  {
    var line := parts[0];
    assert line in parts;
    if |parts| == 1 {
      FirstNewlineAfter(line, "");
      assert line + "\n" == line + "\n" + "";
    } else {
      LinesOfUnlines(parts[1..]);
      var rest := Unlines(parts[1..]);
      assert Unlines(parts) == line + "\n" + rest;
      FirstNewlineAfter(line, rest);
      assert (line + "\n" + rest)[|line| + 1..] == rest;
    }
  }

  // ---- deletion ----

  function RemoveAt<T>(s: seq<T>, k: nat): seq<T>
    requires k < |s|
  {
    s[..k] + s[k + 1..]
  }

  function RemoveRange<T>(s: seq<T>, lo: nat, hi: nat): seq<T>
    requires lo <= hi <= |s|
  {
    s[..lo] + s[hi..]
  }

  ghost predicate Subsequence<T>(a: seq<T>, b: seq<T>) {
    if a == [] then true
    else if b == [] then false
    else (a[0] == b[0] && Subsequence(a[1..], b[1..])) || Subsequence(a, b[1..])
  }

  lemma {:induction false} SubsequenceRefl<T>(a: seq<T>)
    ensures Subsequence(a, a)
  {
    if a != [] {
      SubsequenceRefl(a[1..]);
    }
  }

  /** Deleting a range of a subsequence leaves a subsequence. */
  lemma {:induction false} SubsequenceRemove<T>(a: seq<T>, b: seq<T>, lo: nat, hi: nat)
    requires Subsequence(a, b) && lo <= hi <= |a|
    ensures Subsequence(RemoveRange(a, lo, hi), b)
    decreases |b|
  {
    if a == [] || b == [] {
      assert RemoveRange(a, lo, hi) == [];
    } else if a[0] == b[0] && Subsequence(a[1..], b[1..]) {
      if lo > 0 {
        SubsequenceRemove(a[1..], b[1..], lo - 1, hi - 1);
        assert RemoveRange(a, lo, hi)[1..] == RemoveRange(a[1..], lo - 1, hi - 1);
      } else if hi > 0 {
        SubsequenceRemove(a[1..], b[1..], 0, hi - 1);
        assert RemoveRange(a, 0, hi) == RemoveRange(a[1..], 0, hi - 1);
        SubsequenceWeaken(RemoveRange(a, 0, hi), b);
      } else {
        assert RemoveRange(a, 0, 0) == a;
      }
    } else {
      SubsequenceRemove(a, b[1..], lo, hi);
      SubsequenceWeaken(RemoveRange(a, lo, hi), b);
    }
  }

  lemma SubsequenceWeaken<T>(a: seq<T>, b: seq<T>)
    requires b != [] && Subsequence(a, b[1..])
    ensures Subsequence(a, b)
  {
  }

  /** No single line can be deleted without falsifying the predicate. */
  ghost predicate LineMinimal(parts: seq<string>, triggers: Predicate) {
    forall k :: 0 <= k < |parts| ==> !triggers(Unlines(RemoveAt(parts, k)))
  }

  /** No single character can be deleted without falsifying the predicate. */
  ghost predicate CharMinimal(s: string, triggers: Predicate) {
    forall k :: 0 <= k < |s| ==> !triggers(RemoveAt(s, k))
  }

  function CeilDiv(a: nat, b: nat): nat
    requires b > 0
  {
    (a + b - 1) / b
  }

  lemma CeilDivPositive(a: nat, b: nat)
    requires a > 0 && b > 0
    ensures CeilDiv(a, b) >= 1
    ensures b >= a ==> CeilDiv(a, b) == 1
  {
    if b >= a {
      QuotientOne(b, a - 1);
    } else {
      QuotientAtLeastOne(b, a + b - 1);
    }
  }

  lemma QuotientOne(b: nat, r: nat)
    requires r < b
    ensures (b + r) / b == 1
  {
  }

  lemma QuotientAtLeastOne(b: nat, x: nat)
    requires 0 < b <= x
    ensures x / b >= 1
  {
    var q, r := x / b, x % b;
    assert x == b * q + r && r < b && q >= 0;
    PositiveFactor(b, q);
  }

  /** The list without the first chunk, from `start` on, whose deletion keeps the predicate; else the list itself. */
  function FirstCut(parts: seq<string>, triggers: Predicate, chunk: nat, start: nat): (kept: seq<string>)
    requires chunk >= 1
    ensures kept == parts
            || (0 < |kept| < |parts| && triggers(Unlines(kept))
                && exists lo, hi :: 0 <= lo <= hi <= |parts| && kept == RemoveRange(parts, lo, hi))
    decreases |parts| - start
  {
    if start >= |parts| then parts
    else
      var end := Min(start + chunk, |parts|);
      var candidate := RemoveRange(parts, start, end);
      if |candidate| > 0 && triggers(Unlines(candidate)) then candidate
      else FirstCut(parts, triggers, chunk, end)
  }

  /** Deleting the chunk from `lo` on leaves something, and keeps the predicate. */
  predicate Cuts(parts: seq<string>, triggers: Predicate, chunk: nat, lo: nat)
    requires lo < |parts|
  {
    var candidate := RemoveRange(parts, lo, Min(lo + chunk, |parts|));
    candidate != [] && triggers(Unlines(candidate))
  }

  predicate IsMultiple(k: nat, chunk: nat)
    requires chunk >= 1
  {
    k % chunk == 0
  }

  /**
   Of the chunks that start at multiples of the chunk size, from `start` on, the first that can be cut is, or nothing
   if none can; `lo` is where it starts, or lies beyond the lines.
   */
  lemma {:induction false} FirstCutIs(parts: seq<string>, triggers: Predicate, chunk: nat, start: nat) returns (lo: nat)
    requires chunk >= 1 && IsMultiple(start, chunk)
    ensures start <= lo && IsMultiple(lo, chunk)
    ensures forall k: nat {:trigger IsMultiple(k, chunk)} ::
              start <= k < lo && k < |parts| && IsMultiple(k, chunk) ==> !Cuts(parts, triggers, chunk, k)
    ensures var kept := FirstCut(parts, triggers, chunk, start);
            if lo < |parts|
            then Cuts(parts, triggers, chunk, lo) && kept == RemoveRange(parts, lo, Min(lo + chunk, |parts|))
            else kept == parts
    decreases |parts| - start
  {
    hide *;
    CutStep(parts, triggers, chunk, start);
    NextMultiple(start, chunk);
    if start >= |parts| || Cuts(parts, triggers, chunk, start) {
      lo := start;
    } else {
      lo := FirstCutIs(parts, triggers, chunk, start + chunk);
    }
  }

  lemma CutStep(parts: seq<string>, triggers: Predicate, chunk: nat, start: nat)
    requires chunk >= 1
    ensures FirstCut(parts, triggers, chunk, start) ==
            if start >= |parts| then parts
            else if Cuts(parts, triggers, chunk, start) then RemoveRange(parts, start, Min(start + chunk, |parts|))
            else FirstCut(parts, triggers, chunk, start + chunk)
  {
    hide Unlines;
  }

  lemma NextMultiple(start: nat, chunk: nat)
    requires chunk >= 1 && IsMultiple(start, chunk)
    ensures IsMultiple(start + chunk, chunk)
    ensures forall k: nat {:trigger IsMultiple(k, chunk)} :: start <= k < start + chunk && IsMultiple(k, chunk) ==> k == start
  {
    var q := start / chunk;
    assert start == q * chunk;
    assert (q + 1) * chunk == start + chunk;
    Remainder(start + chunk, chunk, q + 1, 0);
    forall k: nat | start <= k < start + chunk
      ensures k % chunk == k - start
    {
      Remainder(k, chunk, q, k - start);
    }
  }

  lemma Remainder(x: nat, m: nat, q: nat, r: nat)
    requires x == q * m + r && r < m
    ensures x % m == r
  {
    var k := x / m - q;
    assert x == x / m * m + x % m;
    assert k * m == r - x % m;
    if k >= 1 { MulAtLeast(k, m); } else if k <= -1 { MulAtLeast(-k, m); }
  }

  lemma MulAtLeast(k: int, m: nat)
    requires k >= 1
    ensures k * m >= m && -k * m == -(k * m)
  {
  }

  /** One turn of the line phase. */
  lemma PhaseTurn(parts: seq<string>, g: nat, triggers: Predicate, kept: seq<string>)
    requires |parts| >= 2 && g >= 2 && CeilDiv(|parts|, g) >= 1
    requires kept == FirstCut(parts, triggers, CeilDiv(|parts|, g), 0)
    ensures LinePhase(parts, g, triggers) ==
            if |kept| < |parts| then LinePhase(kept, if g <= 3 then 2 else g - 1, triggers)
            else if g >= |parts| then parts
            else LinePhase(parts, Min(2 * g, |parts|), triggers)
  {
    hide FirstCut, CeilDiv;
  }

  ghost predicate Always(triggers: Predicate) {
    forall s :: triggers(s)
  }

  /** If anything may be left, the line phase leaves the last line. */
  lemma {:induction false} LastLineStays(parts: seq<string>, granularity: nat, triggers: Predicate)
    requires granularity >= 2 && parts != [] && Always(triggers)
    ensures LinePhase(parts, granularity, triggers) == [parts[|parts| - 1]]
    decreases |parts|
  {
    hide *;
    if |parts| >= 2 {
      CeilDivPositive(|parts|, granularity);
      ChunkSmaller(|parts|, granularity);
      var chunk := CeilDiv(|parts|, granularity);
      FirstGoes(parts, triggers, chunk);
      PhaseTurn(parts, granularity, triggers, parts[chunk..]);
      LastLineStays(parts[chunk..], if granularity <= 3 then 2 else granularity - 1, triggers);
    } else {
      OneLine(parts, granularity, triggers);
    }
  }

  lemma OneLine(parts: seq<string>, granularity: nat, triggers: Predicate)
    requires |parts| < 2 && granularity >= 2
    ensures LinePhase(parts, granularity, triggers) == parts
  {
  }

  lemma FirstGoes(parts: seq<string>, triggers: Predicate, chunk: nat)
    requires 1 <= chunk < |parts| && Always(triggers)
    ensures FirstCut(parts, triggers, chunk, 0) == parts[chunk..]
  {
    assert RemoveRange(parts, 0, chunk) == parts[chunk..];
    hide Unlines;
  }

  /** A text of one-character lines. */
  function Letters(s: string): seq<string> {
    if s == "" then [] else [[s[0]]] + Letters(s[1..])
  }

  function Text(s: string): string {
    if s == "" then "" else [s[0], '\n'] + Text(s[1..])
  }

  lemma {:induction false} TextOfLetters(s: string)
    requires s != ""
    ensures |Letters(s)| == |s| && Unlines(Letters(s)) == Text(s)
  {
    UnlinesCons([s[0]], Letters(s[1..]));
    if |s| > 1 {
      TextOfLetters(s[1..]);
    } else {
      assert s[1..] == "" && Letters("") == [] && Text("") == "";
    }
    assert [s[0]] + "\n" == [s[0], '\n'];
  }

  lemma {:induction false} LettersApart(s: string, lo: nat, hi: nat)
    requires lo <= hi <= |s|
    ensures |Letters(s)| == |s| && RemoveRange(Letters(s), lo, hi) == Letters(RemoveRange(s, lo, hi))
    decreases |s|
  {
    LettersAt(s);
    LettersAt(RemoveRange(s, lo, hi));
  }

  lemma {:induction false} LettersAt(s: string)
    ensures |Letters(s)| == |s| && forall i :: 0 <= i < |s| ==> Letters(s)[i] == [s[i]]
  {
    if s != "" {
      LettersAt(s[1..]);
    }
  }

  lemma {:induction false} TextIsInjective(s: string, t: string)
    ensures Text(s) == Text(t) <==> s == t
  {
    if s != "" && t != "" {
      TextIsInjective(s[1..], t[1..]);
      assert Text(s)[0] == s[0] && Text(t)[0] == t[0];
      assert Text(s)[2..] == Text(s[1..]) && Text(t)[2..] == Text(t[1..]);
      assert s == [s[0]] + s[1..] && t == [t[0]] + t[1..];
    }
  }

  /** The predicate that accepts two texts of one-character lines. */
  function Either(a: string, b: string): Predicate {
    text => text == Text(a) || text == Text(b)
  }

  lemma Accepted(a: string, b: string, s: string)
    requires s != ""
    ensures Either(a, b)(Unlines(Letters(s))) <==> s == a || s == b
  {
    TextOfLetters(s);
    TextIsInjective(s, a);
    TextIsInjective(s, b);
  }

  /** One chunk tried. */
  lemma Tried(s: string, a: string, b: string, chunk: nat, start: nat)
    requires chunk >= 1 && start < |s|
    ensures |Letters(s)| == |s|
    ensures var (end, rest) := (Min(start + chunk, |s|), RemoveRange(s, start, Min(start + chunk, |s|)));
            FirstCut(Letters(s), Either(a, b), chunk, start) ==
            if rest != "" && (rest == a || rest == b) then Letters(rest) else FirstCut(Letters(s), Either(a, b), chunk, end)
  {
    var end := Min(start + chunk, |s|);
    var rest := RemoveRange(s, start, end);
    LettersApart(s, start, end);
    LettersAt(rest);
    if rest != "" {
      Accepted(a, b, rest);
    }
    hide Unlines, Letters, Either;
  }

  /** One turn of the line phase on a text of letters. */
  lemma Turn(s: string, g: nat, a: string, b: string, rest: string)
    requires |s| >= 2 && g >= 2 && CeilDiv(|s|, g) >= 1
    requires FirstCut(Letters(s), Either(a, b), CeilDiv(|s|, g), 0) == Letters(rest)
    ensures LinePhase(Letters(s), g, Either(a, b)) ==
            if |rest| < |s| then LinePhase(Letters(rest), if g <= 3 then 2 else g - 1, Either(a, b))
            else if g >= |s| then Letters(s)
            else LinePhase(Letters(s), Min(2 * g, |s|), Either(a, b))
  {
    LettersAt(s);
    LettersAt(rest);
    hide *;
    PhaseTurn(Letters(s), g, Either(a, b), Letters(rest));
  }

  /**
   The schedule of the line phase, by its results: the first chunks are halves; after a cut the granularity falls by
   one, and after a sweep without one it doubles. With any other schedule one of these ends elsewhere.
   */
  lemma Schedule()
    ensures LinePhase(Letters("abcde"), 2, Either("abe", "e")) == Letters("abe")
    ensures LinePhase(Letters("abcde"), 2, Either("abcd", "cd")) == Letters("cd")
    ensures LinePhase(Letters("abc"), 2, Either("c", "c")) == Letters("c")
  {
    KeepsMiddle();
    CutsTwice();
    CutsHalf();
  }

  lemma CutsHalf()
    ensures LinePhase(Letters("abc"), 2, Either("c", "c")) == Letters("c")
  {
    assert RemoveRange("abc", 0, 2) == "c";
    Tried("abc", "c", "c", 2, 0);
    Turn("abc", 2, "c", "c", "c");
    LettersAt("c");
  }

  lemma KeepsMiddle()
    ensures LinePhase(Letters("abcde"), 2, Either("abe", "e")) == Letters("abe")
  {
    hide LinePhase, FirstCut, Letters, Either;
    Halves("abe", "e");
    assert RemoveRange("abcde", 0, 2) == "cde" && RemoveRange("abcde", 2, 4) == "abe";
    Tried("abcde", "abe", "e", 2, 0);
    Tried("abcde", "abe", "e", 2, 2);
    Turn("abcde", 4, "abe", "e", "abe");
    NoneOfThree();
  }

  lemma NoneOfThree()
    ensures LinePhase(Letters("abe"), 3, Either("abe", "e")) == Letters("abe")
  {
    LettersAt("abe");
    assert FirstCut(Letters("abe"), Either("abe", "e"), 1, 3) == Letters("abe");
    hide LinePhase, FirstCut, Letters, Either;
    assert RemoveRange("abe", 0, 1) == "be" && RemoveRange("abe", 1, 2) == "ae" && RemoveRange("abe", 2, 3) == "ab";
    Tried("abe", "abe", "e", 1, 0);
    Tried("abe", "abe", "e", 1, 1);
    Tried("abe", "abe", "e", 1, 2);
    Turn("abe", 3, "abe", "e", "abe");
  }

  /** With five letters neither half can be cut, and the chunks become pairs. */
  lemma Halves(a: string, b: string)
    requires a !in {"de", "abc"} && b !in {"de", "abc"}
    ensures LinePhase(Letters("abcde"), 2, Either(a, b)) == LinePhase(Letters("abcde"), 4, Either(a, b))
  {
    assert RemoveRange("abcde", 0, 3) == "de" && RemoveRange("abcde", 3, 5) == "abc";
    Tried("abcde", a, b, 3, 0);
    Tried("abcde", a, b, 3, 3);
    Turn("abcde", 2, a, b, "abcde");
  }

  lemma CutsTwice()
    ensures LinePhase(Letters("abcde"), 2, Either("abcd", "cd")) == Letters("cd")
  {
    hide LinePhase, FirstCut, Letters, Either;
    Halves("abcd", "cd");
    assert RemoveRange("abcde", 0, 2) == "cde" && RemoveRange("abcde", 2, 4) == "abe" && RemoveRange("abcde", 4, 5) == "abcd";
    Tried("abcde", "abcd", "cd", 2, 0);
    Tried("abcde", "abcd", "cd", 2, 2);
    Tried("abcde", "abcd", "cd", 2, 4);
    Turn("abcde", 4, "abcd", "cd", "abcd");
    assert RemoveRange("abcd", 0, 2) == "cd";
    Tried("abcd", "abcd", "cd", 2, 0);
    Turn("abcd", 3, "abcd", "cd", "cd");
    NoneOfTwo();
  }

  lemma NoneOfTwo()
    ensures LinePhase(Letters("cd"), 2, Either("abcd", "cd")) == Letters("cd")
  {
    LettersAt("cd");
    assert FirstCut(Letters("cd"), Either("abcd", "cd"), 1, 2) == Letters("cd");
    hide LinePhase, FirstCut, Letters, Either;
    assert RemoveRange("cd", 0, 1) == "d" && RemoveRange("cd", 1, 2) == "c";
    Tried("cd", "abcd", "cd", 1, 0);
    Tried("cd", "abcd", "cd", 1, 1);
    Turn("cd", 2, "abcd", "cd", "cd");
  }

  lemma ChunkSmaller(n: nat, g: nat)
    requires n >= 2 && g >= 2
    ensures CeilDiv(n, g) < n
  {
    var q := (n + g - 1) / g;
    assert n + g - 1 == q * g + (n + g - 1) % g;
    if q >= n {
      MulGrows(q, n, g);
    }
  }

  lemma MulGrows(q: nat, n: nat, g: nat)
    requires q >= n >= 2 && g >= 2
    ensures q * g >= n + g
  {
    assert (q - 2) * (g - 2) >= 0;
    assert q * g == (q - 2) * (g - 2) + 2 * q + 2 * g - 4;
  }

  /** The lines that the line phase leaves. */
  function LinePhase(parts: seq<string>, granularity: nat, triggers: Predicate): seq<string>
    requires granularity >= 2
    decreases |parts|, if granularity < |parts| then |parts| - granularity else 0
  {
    if |parts| < 2 then parts
    else
      CeilDivPositive(|parts|, granularity);
      var kept := FirstCut(parts, triggers, CeilDiv(|parts|, granularity), 0);
      if |kept| < |parts| then LinePhase(kept, if granularity - 1 < 2 then 2 else granularity - 1, triggers)
      else if granularity >= |parts| then parts
      else LinePhase(parts, Min(granularity * 2, |parts|), triggers)
  }

  /** The text that the line phase returns. */
  function AfterLines(source: string, triggers: Predicate): string {
    if |Lines(source)| < 2 then source else Unlines(LinePhase(Lines(source), 2, triggers))
  }

  /**
   One sweep of the line phase: deletes the first chunk whose deletion keeps the predicate, if any.
   */
  method TryChunks(parts: seq<string>, triggers: Predicate, chunk: nat) returns (reduced: bool, kept: seq<string>)
    requires |parts| >= 2 && chunk >= 1
    ensures kept == FirstCut(parts, triggers, chunk, 0) && (reduced <==> |kept| < |parts|)
    ensures reduced ==> && 0 < |kept| < |parts| && triggers(Unlines(kept))
                        && exists lo, hi :: 0 <= lo <= hi <= |parts| && kept == RemoveRange(parts, lo, hi)
    ensures !reduced ==> kept == parts
    ensures !reduced && chunk == 1 ==> LineMinimal(parts, triggers)
  {
    hide Unlines;
    kept, reduced := parts, false;
    var start := 0;
    while start < |parts|
      invariant 0 <= start <= |parts|
      invariant FirstCut(parts, triggers, chunk, 0) == FirstCut(parts, triggers, chunk, start)
      invariant chunk == 1 ==> forall k :: 0 <= k < start ==> !triggers(Unlines(RemoveAt(parts, k)))
    {
      var end := Min(start + chunk, |parts|);
      var candidate := RemoveRange(parts, start, end);
      if |candidate| > 0 && triggers(Unlines(candidate)) {
        return true, candidate;
      }
      assert chunk == 1 ==> candidate == RemoveAt(parts, start);
      start := end;
    }
  }

  /**
   The line phase. Whatever the predicate, two or more lines left means that no single line can go.
   */
  method PhaseLines(source: string, triggers: Predicate) returns (out: string, ghost parts: seq<string>)
    ensures out == AfterLines(source, triggers)
    ensures |Lines(source)| >= 2 ==> |parts| >= 1 && out == Unlines(parts) && Subsequence(parts, Lines(source))
    ensures |Lines(source)| >= 2 && |parts| >= 2 ==> LineMinimal(parts, triggers)
  {
    var lines := Lines(source);
    var current := lines;
    parts := current;
    if |current| < 2 {
      return source, parts;
    }
    SubsequenceRefl(current);
    var granularity := 2;
    while |current| >= 2
      invariant |current| >= 1 && granularity >= 2
      invariant Subsequence(current, lines)
      invariant LinePhase(lines, 2, triggers) == LinePhase(current, granularity, triggers)
      decreases |current|, |current| - granularity
    {
      CeilDivPositive(|current|, granularity);
      var chunk := CeilDiv(|current|, granularity);
      var reduced, kept := TryChunks(current, triggers, chunk);
      if reduced {
        ghost var lo, hi :| 0 <= lo <= hi <= |current| && kept == RemoveRange(current, lo, hi);
        SubsequenceRemove(current, lines, lo, hi);
        current := kept;
        granularity := if granularity - 1 < 2 then 2 else granularity - 1;
      } else {
        if granularity >= |current| {
          parts := current;
          return Unlines(current), parts;
        }
        granularity := Min(granularity * 2, |current|);
      }
    }
    parts := current;
    out := Unlines(current);
  }

  /** The lines left are the given ones, or fewer that satisfy the predicate. */
  lemma {:induction false} LinePhaseIs(parts: seq<string>, granularity: nat, triggers: Predicate)
    requires granularity >= 2 && parts != []
    ensures var r := LinePhase(parts, granularity, triggers);
            && r != [] && (r == parts || (|r| < |parts| && triggers(Unlines(r))))
            && forall line :: line in r ==> line in parts
    decreases |parts|, if granularity < |parts| then |parts| - granularity else 0
  {
    if |parts| >= 2 {
      CeilDivPositive(|parts|, granularity);
      var kept := FirstCut(parts, triggers, CeilDiv(|parts|, granularity), 0);
      if |kept| < |parts| {
        LinePhaseIs(kept, if granularity - 1 < 2 then 2 else granularity - 1, triggers);
      } else if granularity < |parts| {
        LinePhaseIs(parts, Min(granularity * 2, |parts|), triggers);
      }
    }
  }

  ghost predicate KeptByLines(source: string, triggers: Predicate) {
    triggers(source) ==> triggers(AfterLines(source, triggers))
  }

  /**
   The line phase returns a text that satisfies the predicate, whatever predicate the source satisfies,
   exactly if there are fewer than two lines, or the text ends with a newline and no newline follows a
   carriage return. Otherwise the predicate that only the source satisfies is lost.
   */
  lemma LinePhaseKeepsIff(source: string)
    ensures (forall triggers: Predicate :: KeptByLines(source, triggers))
            <==> |Lines(source)| < 2 || (NewlineTerminated(source) && !HasCrLf(source))
  {
    UnlinesOfLines(source);
    var lines := Lines(source);
    if |lines| >= 2 {
      forall triggers: Predicate | Unlines(lines) == source
        ensures KeptByLines(source, triggers)
      {
        LinePhaseIs(lines, 2, triggers);
      }
      if Unlines(lines) != source {
        var only: Predicate := t => t == source;
        LinePhaseIs(lines, 2, only);
        LinesAreNewlineFree(source);
        LinesOfUnlines(LinePhase(lines, 2, only));
        assert !KeptByLines(source, only);
      }
    }
  }

  /** An instance: a text without a final newline gains one, and this predicate on the length is lost. */
  lemma JoiningCanFalsify() returns (source: string, triggers: Predicate)
    ensures triggers(source) && !triggers(AfterLines(source, triggers)) && |Lines(source)| >= 2
  {
    source := "a\nb";
    triggers := s => |s| == 3;
    assert FirstNewline("b") == 1 && FirstNewline("\nb") == 0;
    assert source[1..] == "\nb" && FirstNewline(source) == 1;
    assert source[2..] == "b" && Lines("b") == ["b"];
    assert source[..1] == "a" && DropCarriageReturn("a") == "a";
    assert Lines(source) == ["a"] + Lines(source[2..]);
    var ls := ["a", "b"];
    assert ls[1..] == ["b"] && Join(ls[1..]) == "b";
    assert Unlines(ls) == "a" + "\n" + "b" + "\n";
    assert RemoveRange(ls, 0, 1) == ["b"] && RemoveRange(ls, 1, 2) == ["a"];
    assert Unlines(["a"]) == "a\n" && Unlines(["b"]) == "b\n";
    assert FirstCut(ls, triggers, 1, 2) == ls && FirstCut(ls, triggers, 1, 1) == ls;
    assert CeilDiv(2, 2) == 1 && LinePhase(ls, 2, triggers) == ls;
  }

  // ---- the character phase ----

  /** Restoring a deleted character never falsifies the predicate. */
  ghost predicate UpwardClosed(triggers: Predicate) {
    forall s: string, k: nat {:trigger triggers(RemoveAt(s, k))} ::
      k < |s| && triggers(RemoveAt(s, k)) ==> triggers(s)
  }

  lemma RemoveAtCommutes(s: string, i: nat, k: nat)
    requires k < i < |s|
    ensures RemoveAt(RemoveAt(s, i), k) == RemoveAt(RemoveAt(s, k), i - 1)
  {
  }

  /** For an upward-closed predicate, what could not go before a deletion cannot go after it. */
  lemma StillStuck(s: string, i: nat, k: nat, triggers: Predicate)
    requires UpwardClosed(triggers) && k < i < |s| && !triggers(RemoveAt(s, k))
    ensures !triggers(RemoveAt(RemoveAt(s, i), k))
  {
    RemoveAtCommutes(s, i, k);
    var t := RemoveAt(s, k);
    assert triggers(RemoveAt(t, i - 1)) ==> triggers(t);
  }

  /** What one pass at a fixed granularity makes of a text, from position `i` on. */
  function Sweep(chars: string, i: nat, gran: nat, triggers: Predicate): string
    requires gran >= 1
    decreases |chars| - i
  {
    if i >= |chars| then chars
    else
      var candidate := RemoveRange(chars, i, Min(i + gran, |chars|));
      if triggers(candidate) then Sweep(candidate, i, gran, triggers) else Sweep(chars, i + gran, gran, triggers)
  }

  /** Without upward closure one granularity-1 pass can stop too early: here "a" is left though "" would do. */
  lemma OnePassNotEnough() returns (source: string, triggers: Predicate)
    ensures triggers(source) && !UpwardClosed(triggers)
    ensures !CharMinimal(Sweep(source, 0, 1, triggers), triggers)
  {
    source, triggers := "ab", s => s != "b";
    assert RemoveRange("ab", 0, 1) == "b" && RemoveRange("ab", 1, 2) == "a";
    assert Sweep("a", 1, 1, triggers) == "a";
    assert Sweep("ab", 1, 1, triggers) == "a";
    assert RemoveAt("a", 0) == "" && RemoveAt("b", 0) == "";
    assert triggers(RemoveAt("b", 0)) && !triggers("b");
    assert triggers(RemoveAt("a", 0));
  }

  /** Characters go from the left: of a text that only must not become empty, a pass leaves the last one. */
  lemma {:induction false} LastCharacterStays(chars: string)
    requires chars != ""
    ensures Sweep(chars, 0, 1, s => s != "") == [chars[|chars| - 1]]
    decreases |chars|
  {
    var nonEmpty: Predicate := s => s != "";
    if |chars| >= 2 {
      assert RemoveRange(chars, 0, 1) == chars[1..];
      LastCharacterStays(chars[1..]);
    } else {
      assert RemoveRange(chars, 0, 1) == "";
      assert Sweep(chars, 1, 1, nonEmpty) == chars;
    }
  }

  /** One pass at a fixed granularity. */
  method SweepChars(source: string, triggers: Predicate, gran: nat) returns (chars: string)
    requires gran >= 1
    ensures chars == Sweep(source, 0, gran, triggers)
    ensures Subsequence(chars, source) && |chars| <= |source|
    ensures chars == source || (|chars| < |source| && triggers(chars))
    ensures gran == 1 && UpwardClosed(triggers) ==> CharMinimal(chars, triggers)
  {
    chars := source;
    SubsequenceRefl(chars);
    var i := 0;
    while i < |chars|
      invariant 0 <= i
      invariant Sweep(source, 0, gran, triggers) == Sweep(chars, i, gran, triggers)
      invariant Subsequence(chars, source) && |chars| <= |source|
      invariant chars == source || (|chars| < |source| && triggers(chars))
      invariant gran == 1 ==> i <= |chars|
      invariant gran == 1 && UpwardClosed(triggers) ==> forall k :: 0 <= k < i ==> !triggers(RemoveAt(chars, k))
      decreases |chars| - i
    {
      var end := Min(i + gran, |chars|);
      var candidate := RemoveRange(chars, i, end);
      if triggers(candidate) {
        SubsequenceRemove(chars, source, i, end);
        if gran == 1 && UpwardClosed(triggers) {
          assert candidate == RemoveAt(chars, i);
          forall k | 0 <= k < i
            ensures !triggers(RemoveAt(candidate, k))
          {
            StillStuck(chars, i, k, triggers);
          }
        }
        chars := candidate;
      } else {
        assert gran == 1 ==> candidate == RemoveAt(chars, i);
        i := i + gran;
      }
    }
  }

  lemma {:induction false} SubsequenceTransitive<T>(a: seq<T>, b: seq<T>, c: seq<T>)
    requires Subsequence(a, b) && Subsequence(b, c)
    ensures Subsequence(a, c)
    decreases |b| + |c|
  {
    if a != [] {
      assert b != [] && c != [];
      if b[0] == c[0] && Subsequence(b[1..], c[1..]) {
        if a[0] == b[0] && Subsequence(a[1..], b[1..]) {
          SubsequenceTransitive(a[1..], b[1..], c[1..]);
        } else {
          SubsequenceTransitive(a, b[1..], c[1..]);
        }
      } else {
        SubsequenceTransitive(a, b, c[1..]);
      }
    }
  }

  /** What passes at granularities `gran`, half of it, and so on down to one make of a text. */
  function Shrink(chars: string, gran: nat, triggers: Predicate): string
    decreases gran
  {
    if gran == 0 then chars else Shrink(Sweep(chars, 0, gran, triggers), gran / 2, triggers)
  }

  /**
   The character phase before the final trim: halving granularity, one pass each. The last pass has
   granularity one, and for an upward-closed predicate that one pass leaves no removable character.
   */
  method ShrinkChars(source: string, triggers: Predicate) returns (chars: string)
    ensures chars == Shrink(source, |source| / 2, triggers)
    ensures Subsequence(chars, source) && |chars| <= |source|
    ensures chars == source || (|chars| < |source| && triggers(chars))
    ensures |source| >= 2 && UpwardClosed(triggers) ==> CharMinimal(chars, triggers)
  {
    chars := source;
    SubsequenceRefl(chars);
    var gran := |chars| / 2;
    while gran >= 1
      invariant 0 <= gran
      invariant Shrink(source, |source| / 2, triggers) == Shrink(chars, gran, triggers)
      invariant Subsequence(chars, source) && |chars| <= |source|
      invariant chars == source || (|chars| < |source| && triggers(chars))
      invariant gran == 0 && |source| >= 2 && UpwardClosed(triggers) ==> CharMinimal(chars, triggers)
    {
      ghost var before := chars;
      chars := SweepChars(chars, triggers, gran);
      SubsequenceTransitive(chars, before, source);
      gran := gran / 2;
    }
  }

  /** The characters with the Unicode property White_Space. */
  predicate Blank(c: char) {
    var u := c as int;
    || 9 <= u <= 13 || u == 0x20 || u == 0x85 || u == 0xA0 || u == 0x1680 || 0x2000 <= u <= 0x200A
    || u in {0x2028, 0x2029, 0x202F, 0x205F, 0x3000}
  }

  function TrimStart(s: string): (r: string)
    ensures |r| <= |s| && r == s[|s| - |r|..] && (forall i :: 0 <= i < |s| - |r| ==> Blank(s[i]))
    ensures r != "" ==> !Blank(r[0])
  {
    if s != "" && Blank(s[0]) then TrimStart(s[1..]) else s
  }

  function TrimEnd(s: string): (r: string)
    ensures |r| <= |s| && r == s[..|r|] && (forall i :: |r| <= i < |s| ==> Blank(s[i]))
    ensures r != "" ==> !Blank(r[|r| - 1])
  {
    if s != "" && Blank(s[|s| - 1]) then TrimEnd(s[..|s| - 1]) else s
  }

  function Trim(s: string): string {
    TrimStart(TrimEnd(s))
  }

  /** A text is blanks, what trimming leaves, and blanks; what is left neither starts nor ends with one. */
  lemma {:induction false} TrimIs(s: string) returns (lo: nat, hi: nat)
    ensures lo <= hi <= |s| && Trim(s) == s[lo..hi]
    ensures forall i :: 0 <= i < lo || hi <= i < |s| ==> Blank(s[i])
    ensures Trim(s) != "" ==> !Blank(Trim(s)[0]) && !Blank(Trim(s)[|Trim(s)| - 1])
    ensures NewlineTerminated(s) ==> |Trim(s)| < |s|
  {
    var t := TrimEnd(s);
    lo, hi := |t| - |TrimStart(t)|, |t|;
    assert NewlineTerminated(s) ==> Blank(s[|s| - 1]);
    assert s[lo..hi] == t[lo..];
    if hi == |s| && lo == 0 {
      assert t == s;
    }
  }

  /** All of them, one by one. */
  const WHITE: string :=
    "\t\n\U{B}\U{C}\r \U{85}\U{A0}\U{1680}\U{2000}\U{2001}\U{2002}\U{2003}\U{2004}\U{2005}\U{2006}\U{2007}\U{2008}"
    + "\U{2009}\U{200A}\U{2028}\U{2029}\U{202F}\U{205F}\U{3000}"

  /** A character goes in trimming exactly if it is one of them. */
  lemma BlanksGo(c: char)
    ensures Trim([c]) == "" <==> c in WHITE
    ensures Trim([c]) == "" || Trim([c]) == [c]
  {
    assert TrimEnd("") == "" && TrimStart("") == "";
    assert [c][..0] == "" && [c][1..] == "";
    assert TrimEnd([c]) == if Blank(c) then "" else [c];
    BlankIs(c);
  }

  lemma BlankIs(c: char)
    ensures Blank(c) <==> c in WHITE
  {
    var u := c as int;
    assert WHITE[0] == '\t' && WHITE[1] == '\n' && WHITE[4] == '\r' && WHITE[5] == ' ';
    if 9 <= u <= 13 {
      assert WHITE[u - 9] == c;
    } else if 0x2000 <= u <= 0x200A {
      assert WHITE[u - 0x2000 + 9] == c;
    }
  }

  /** What the minimiser returns. */
  function Minimized(source: string, triggers: Predicate): string {
    if !triggers(source) then source
    else
      var joined := AfterLines(source, triggers);
      Trim(Shrink(joined, |joined| / 2, triggers)) + "\n"
  }

  /** One chunk of characters tried. */
  lemma Swept(chars: string, i: nat, gran: nat, triggers: Predicate)
    requires gran >= 1
    ensures Sweep(chars, i, gran, triggers) ==
            if i >= |chars| then chars
            else
              var rest := RemoveRange(chars, i, Min(i + gran, |chars|));
              if triggers(rest) then Sweep(rest, i, gran, triggers) else Sweep(chars, i + gran, gran, triggers)
  {
  }

  /** The texts these predicates accept. */
  function AnyOf(texts: set<string>): Predicate {
    text => text in texts
  }

  lemma FivePairs(p: Predicate)
    requires p == AnyOf({"abcde", "abcd", "bcd", ""})
    ensures Sweep("abcde", 0, 2, p) == "abcd"
  {
    assert RemoveRange("abcde", 0, 2) == "cde" && RemoveRange("abcde", 2, 4) == "abe" && RemoveRange("abcde", 4, 5) == "abcd";
    Swept("abcde", 0, 2, p);
    Swept("abcde", 2, 2, p);
    Swept("abcde", 4, 2, p);
    Swept("abcd", 4, 2, p);
    hide Sweep;
  }

  lemma FourSingles(p: Predicate)
    requires p == AnyOf({"abcde", "abcd", "bcd", ""})
    ensures Sweep("abcd", 0, 1, p) == "bcd"
  {
    assert RemoveRange("abcd", 0, 1) == "bcd" && RemoveRange("bcd", 0, 1) == "cd";
    assert RemoveRange("bcd", 1, 2) == "bd" && RemoveRange("bcd", 2, 3) == "bc";
    Swept("abcd", 0, 1, p);
    Swept("bcd", 0, 1, p);
    Swept("bcd", 1, 1, p);
    Swept("bcd", 2, 1, p);
    Swept("bcd", 3, 1, p);
    hide Sweep;
  }

  lemma SixHalves(p: Predicate)
    requires p == AnyOf({"abcdef", "abcd", ""})
    ensures Sweep("abcdef", 0, 3, p) == "abcdef"
  {
    assert RemoveRange("abcdef", 0, 3) == "def" && RemoveRange("abcdef", 3, 6) == "abc";
    Swept("abcdef", 0, 3, p);
    Swept("abcdef", 3, 3, p);
    Swept("abcdef", 6, 3, p);
    hide Sweep;
  }

  lemma SixSingles(p: Predicate, i: nat)
    requires p == AnyOf({"abcdef", "abcd", ""}) && i <= 6
    ensures Sweep("abcdef", i, 1, p) == "abcdef"
    decreases 6 - i
  {
    Swept("abcdef", i, 1, p);
    if i < 6 {
      SixSingles(p, i + 1);
      hide Sweep;
      assert |RemoveRange("abcdef", i, i + 1)| == 5;
    }
  }

  lemma OneLineOnly(s: string)
    requires '\n' !in s && s != ""
    ensures Lines(s) == [s]
  {
    assert forall i :: 0 <= i < |s| ==> s[i] in s;
  }

  lemma NothingTrimmed(s: string)
    requires s != "" && !Blank(s[0]) && !Blank(s[|s| - 1])
    ensures Trim(s) == s
  {
  }

  /**
   The schedule of the character phase, by its results: chunks start at half the text, halve after each pass, and a chunk
   that stays is passed by as a whole. With any other schedule one of these ends elsewhere.
   */
  lemma CharacterSchedule()
    ensures Minimized("abcde", AnyOf({"abcde", "abcd", "bcd", ""})) == "bcd\n"
    ensures Minimized("abcdef", AnyOf({"abcdef", "abcd", ""})) == "abcdef\n"
  {
    FiveShrinks();
    SixShrinks();
  }

  lemma ShrinksTo(chars: string, gran: nat, triggers: Predicate)
    ensures Shrink(chars, gran, triggers) ==
            if gran == 0 then chars else Shrink(Sweep(chars, 0, gran, triggers), gran / 2, triggers)
  {
  }

  lemma OneLineMinimized(s: string, triggers: Predicate, chars: string)
    requires '\n' !in s && s != "" && triggers(s) && Shrink(s, |s| / 2, triggers) == chars
    requires chars != "" && !Blank(chars[0]) && !Blank(chars[|chars| - 1])
    ensures Minimized(s, triggers) == chars + "\n"
  {
    OneLineOnly(s);
    NothingTrimmed(chars);
    hide Lines, Trim, Shrink, LinePhase;
  }

  lemma FiveShrinks()
    ensures Minimized("abcde", AnyOf({"abcde", "abcd", "bcd", ""})) == "bcd\n"
  {
    var p := AnyOf({"abcde", "abcd", "bcd", ""});
    assert !Blank('b') && !Blank('d') && p("abcde");
    hide *;
    FivePairs(p);
    FourSingles(p);
    ShrinksTo("bcd", 0, p);
    ShrinksTo("abcd", 1, p);
    ShrinksTo("abcde", 2, p);
    OneLineMinimized("abcde", p, "bcd");
    assert "bcd" + "\n" == "bcd\n";
  }

  lemma SixShrinks()
    ensures Minimized("abcdef", AnyOf({"abcdef", "abcd", ""})) == "abcdef\n"
  {
    var p := AnyOf({"abcdef", "abcd", ""});
    assert !Blank('a') && !Blank('f') && p("abcdef");
    hide *;
    SixHalves(p);
    SixSingles(p, 0);
    ShrinksTo("abcdef", 0, p);
    ShrinksTo("abcdef", 1, p);
    ShrinksTo("abcdef", 3, p);
    OneLineMinimized("abcdef", p, "abcdef");
    assert "abcdef" + "\n" == "abcdef\n";
  }

  /** Trimming a satisfying text and ending it with a newline keeps the predicate. */
  ghost predicate BlankProof(triggers: Predicate) {
    forall s: string {:trigger triggers(s)} :: triggers(s) ==> triggers(Trim(s) + "\n")
  }

  /**
   The whole minimiser. A source that does not satisfy the predicate comes back as it is. Otherwise the
   result is a trimmed text plus a newline; the text before the trim satisfies the predicate if the line
   phase kept it, and cannot lose any one character if the predicate is upward closed. The result grows
   by at most one character, and not at all if the source ends with a newline.
   */
  method Minimize(source: string, triggers: Predicate) returns (out: string, ghost joined: string, ghost chars: string)
    ensures out == Minimized(source, triggers)
    ensures !triggers(source) ==> out == source
    ensures triggers(source) ==> joined == AfterLines(source, triggers)
    ensures triggers(source) ==> out == Trim(chars) + "\n" && Subsequence(chars, joined)
    ensures triggers(source) && (|Lines(source)| < 2 || (NewlineTerminated(source) && !HasCrLf(source))) ==>
              triggers(chars) && (BlankProof(triggers) ==> triggers(out))
    ensures triggers(source) && |joined| >= 2 && UpwardClosed(triggers) ==> CharMinimal(chars, triggers)
    ensures |out| <= if NewlineTerminated(source) then |source| else |source| + 1
  {
    joined, chars := source, source;
    if !triggers(source) {
      return source, joined, chars;
    }
    var lines;
    ghost var parts;
    lines, parts := PhaseLines(source, triggers);
    LinePhaseKeepsIff(source);
    assert KeptByLines(source, triggers) || !(|Lines(source)| < 2 || (NewlineTerminated(source) && !HasCrLf(source)));
    if |Lines(source)| >= 2 {
      SubsequenceJoinLength(parts, Lines(source));
      UnlinesOfLines(source);
    }
    joined := lines;
    var shrunk := ShrinkChars(lines, triggers);
    chars := shrunk;
    ghost var lo, hi := TrimIs(shrunk);
    out := Trim(shrunk) + "\n";
  }

  /** The final trim can lose the predicate too: here the text has to start with a blank. */
  lemma TrimCanFalsify() returns (source: string, triggers: Predicate)
    ensures triggers(source) && !triggers(Minimized(source, triggers))
  {
    source, triggers := " ", s => s != "" && s[0] == ' ';
    assert source[1..] == "" && FirstNewline("") == 0 && FirstNewline(source) == 1 && Lines(source) == [source];
    assert source[..0] == "" && TrimEnd(source) == "" && Trim(source) == "";
    assert "" + "\n" == "\n" && "\n"[0] == '\n';
  }

  lemma {:induction false} SubsequenceJoinLength(a: seq<string>, b: seq<string>)
    requires Subsequence(a, b)
    ensures |Join(a)| <= |Join(b)|
    decreases |b|
  {
    if a != [] {
      if a[0] == b[0] && Subsequence(a[1..], b[1..]) {
        SubsequenceJoinLength(a[1..], b[1..]);
        if |a| == 1 && |b| > 1 {
          assert Join(b) == b[0] + "\n" + Join(b[1..]);
        }
        SubsequenceLength(a[1..], b[1..]);
      } else {
        SubsequenceJoinLength(a, b[1..]);
        SubsequenceLength(a, b[1..]);
      }
    }
  }

  lemma {:induction false} SubsequenceLength<T>(a: seq<T>, b: seq<T>)
    requires Subsequence(a, b)
    ensures |a| <= |b|
    decreases |b|
  {
    if a != [] {
      if a[0] == b[0] && Subsequence(a[1..], b[1..]) {
        SubsequenceLength(a[1..], b[1..]);
      } else {
        SubsequenceLength(a, b[1..]);
      }
    }
  }
}
