/** The caption normaliser behind `POST /api/fix-captions`: collapse every
    whitespace run to one space and trim, split after `.`, `?` or `!` followed by
    whitespace, give every piece a terminal mark, and join the pieces with newlines. */
module FixCaptions {
  import opened Wrappers
  import opened Text

  /** The marks of the character class `[.?!]`. */
  predicate IsTerminal(c: char) {
    c == '.' || c == '?' || c == '!'
  }

  // ---------------------------------------------------------------------------
  // Step 1: `caption.replace(/\s+/g, ' ').trim()`
  // ---------------------------------------------------------------------------

  /** Every whitespace character is a plain space and is not followed by
      another whitespace character. */
  predicate IsCollapsed(s: string) {
    && (forall i :: 0 <= i < |s| && IsSpace(s[i]) ==> s[i] == ' ')
    && (forall i :: 0 <= i < |s| - 1 ==> !DoubleSpaceAt(s, i))
  }

  /** Positions `i` and `i + 1` both hold whitespace. */
  predicate DoubleSpaceAt(s: string, i: int) {
    0 <= i < |s| - 1 && IsSpace(s[i]) && IsSpace(s[i + 1])
  }

  /** The shape of cleaned text: collapsed, and no whitespace at either end. */
  predicate IsClean(s: string) {
    IsCollapsed(s) && (|s| > 0 ==> !IsSpace(s[0]) && !IsSpace(s[|s| - 1]))
  }

  /** `s.replace(/\s+/g, ' ')`: each maximal whitespace run becomes one space
      (a whitespace character followed by whitespace is dropped, the last one
      of a run becomes ' '). */
  function Collapse(s: string): string {
    if s == [] then []
    else if IsSpace(s[0]) then
      if |s| > 1 && IsSpace(s[1]) then Collapse(s[1..]) else [' '] + Collapse(s[1..])
    else [s[0]] + Collapse(s[1..])
  }

  /** Collapsed text has no whitespace other than single spaces, and it starts
      with whitespace exactly when the input does. */
  lemma {:induction false} CollapseShape(s: string)
    ensures IsCollapsed(Collapse(s))
    ensures |s| > 0 ==> |Collapse(s)| > 0 && (IsSpace(Collapse(s)[0]) <==> IsSpace(s[0]))
  {
    if s != [] {
      CollapseShape(s[1..]);
      if !IsSpace(s[0]) {
        CollapsedCons(s[0], Collapse(s[1..]));
      } else if !(|s| > 1 && IsSpace(s[1])) {
        CollapsedCons(' ', Collapse(s[1..]));
      }
    }
  }

  lemma CollapsedCons(c: char, x: string)
    requires IsCollapsed(x)
    requires IsSpace(c) ==> c == ' ' && (|x| > 0 ==> !IsSpace(x[0]))
    ensures IsCollapsed([c] + x)
  {
    var s := [c] + x;
    forall i | 0 <= i < |s| - 1 ensures !DoubleSpaceAt(s, i) {
      if i > 0 { assert !DoubleSpaceAt(x, i - 1); }
    }
  }

  /** Every slice of collapsed text is collapsed. */
  lemma CollapsedSlice(s: string, i: nat, j: nat)
    requires IsCollapsed(s) && i <= j <= |s|
    ensures IsCollapsed(s[i..j])
  {
    forall k | 0 <= k < j - i - 1
      ensures !DoubleSpaceAt(s[i..j], k)
    {
      assert !DoubleSpaceAt(s, i + k);
      assert s[i..j][k] == s[i + k] && s[i..j][k + 1] == s[i + k + 1];
    }
  }

  /** The cleaned text (step 1 of the handler). */
  function Clean(s: string): (r: string)
    ensures IsClean(r)
  {
    var c := Collapse(s);
    CollapseShape(s);
    CollapsedSlice(c, RunEnd(c, 0), RunEnd(c, 0) + |Trim(c)|);
    Trim(c)
  }

  /** The reference reading of step 1: the whitespace-separated words of `s`,
      in order. */
  predicate IsWord(w: string) {
    |w| > 0 && forall i :: 0 <= i < |w| ==> !IsSpace(w[i])
  }

  function Words(s: string): (ws: seq<string>)
    ensures forall i :: 0 <= i < |ws| ==> IsWord(ws[i])
    ensures |s| > 0 && !IsSpace(s[0]) ==> |ws| > 0
  {
    if s == [] then []
    else if IsSpace(s[0]) then Words(s[1..])
    else if |s| == 1 || IsSpace(s[1]) then [[s[0]]] + Words(s[1..])
    else
      var r := Words(s[1..]);
      assert IsWord([s[0]] + r[0]) by {
        forall i | 0 <= i < |[s[0]] + r[0]| ensures !IsSpace(([s[0]] + r[0])[i]) {
          if i > 0 { assert ([s[0]] + r[0])[i] == r[0][i - 1]; }
        }
      }
      [[s[0]] + r[0]] + r[1..]
  }

  // ---------------------------------------------------------------------------
  // Step 2: `cleaned.split(/(?<=[.?!])\s+/)`
  // ---------------------------------------------------------------------------

  /** Position `j` starts a separator: a whitespace character right after a terminal mark. */
  predicate IsBreakAt(s: string, j: int) {
    0 < j < |s| && IsTerminal(s[j - 1]) && IsSpace(s[j])
  }

  predicate NoBreak(s: string) {
    forall j :: 0 < j < |s| ==> !IsBreakAt(s, j)
  }

  /** The split as JavaScript's `String.prototype.split` runs it: look for a
      match at positions `k`, `k + 1`, ... (never at 0, where the lookbehind
      has nothing to see); a match consumes the whole whitespace run, and the
      search resumes right after it. */
  function SplitFrom(s: string, k: nat): (pieces: seq<string>)
    requires 1 <= k
    ensures |pieces| > 0
    decreases |s|, |s| - k
  {
    if k >= |s| then [s]
    else if IsBreakAt(s, k) then [s[..k]] + SplitFrom(s[RunEnd(s, k)..], 1)
    else SplitFrom(s, k + 1)
  }

  function Split(s: string): (pieces: seq<string>)
    ensures |pieces| > 0
  {
    SplitFrom(s, 1)
  }

  /** The number of separators at positions `k` and later. */
  function BreakCountFrom(s: string, k: nat): nat
    decreases |s| - k
  {
    if k >= |s| then 0 else (if IsBreakAt(s, k) then 1 else 0) + BreakCountFrom(s, k + 1)
  }

  function BreakCount(s: string): nat {
    BreakCountFrom(s, 1)
  }

  // ---------------------------------------------------------------------------
  // Steps 3 and 4: punctuate every piece and join with '\n'
  // ---------------------------------------------------------------------------

  /** `/[.?!]$/.test(p)`. */
  predicate EndsTerminal(p: string) {
    |p| > 0 && IsTerminal(p[|p| - 1])
  }

  /** `const line = s.trim(); /[.?!]$/.test(line) ? line : line + '.'` */
  function Punctuate(piece: string): (line: string)
    ensures EndsTerminal(line)
    ensures var t := Trim(piece);
      line == if EndsTerminal(t) then t else t + "."
  {
    var t := Trim(piece);
    if EndsTerminal(t) then t else t + "."
  }

  function PunctuateAll(pieces: seq<string>): (lines: seq<string>)
    ensures |lines| == |pieces|
    ensures forall i :: 0 <= i < |pieces| ==> lines[i] == Punctuate(pieces[i])
  {
    if pieces == [] then [] else [Punctuate(pieces[0])] + PunctuateAll(pieces[1..])
  }

  /** A line of normalised output: ends in a terminal mark (so is not empty),
      is clean (so holds no newline and no doubled or edge whitespace) and
      holds no separator. */
  predicate IsSentence(l: string) {
    EndsTerminal(l) && IsClean(l) && NoBreak(l)
  }

  /** The output lines, before they are joined: one more than the separators
      in the cleaned text, each a sentence. */
  function NormaliseLines(caption: string): (lines: seq<string>)
    ensures |lines| == 1 + BreakCount(Clean(caption))
    ensures forall i :: 0 <= i < |lines| ==> IsSentence(lines[i])
  {
    var pieces := Split(Clean(caption));
    SplitClean(Clean(caption));
    SplitCount(Clean(caption));
    PunctuatePieces(pieces);
    PunctuateAll(pieces)
  }

  /** Steps 1-4: the `result` string of a successful reply. Its newline-separated
      lines are exactly the normalised lines. */
  function Normalise(caption: string): (result: string)
    ensures SplitOn(result, '\n') == NormaliseLines(caption)
  {
    var lines := NormaliseLines(caption);
    forall i | 0 <= i < |lines| ensures '\n' !in lines[i] {
      NoNewlineInClean(lines[i]);
    }
    SplitOnJoin(lines, '\n');
    JoinWith(lines, "\n")
  }

  // ---------------------------------------------------------------------------
  // The handler
  // ---------------------------------------------------------------------------

  /** The `caption` member of the request body. */
  datatype CaptionField = Absent | NonString | Str(text: string)

  /** The request body: `Malformed` when `req.json()` or the destructuring throws. */
  datatype Body = Malformed | Parsed(caption: CaptionField)

  datatype Reply =
    | Fixed(result: string)                 // 200 `{ result }`
    | Failed(status: int, error: string)    // `{ error }` with the status

  const InvalidInput := "Invalid input"
  const FailedToClean := "Failed to clean caption"

  /** `POST`: an absent, non-string or empty caption is a 400; a body that
      cannot be read is a 500; otherwise the normalised text. */
  function Post(body: Body): (reply: Reply)
    ensures body.Malformed? ==> reply == Failed(500, FailedToClean)
    ensures body.Parsed? && (body.caption.Str? ==> body.caption.text == "") ==> reply == Failed(400, InvalidInput)
    ensures reply.Fixed? <==> body.Parsed? && body.caption.Str? && body.caption.text != ""
    ensures reply.Fixed? ==> reply.result == Normalise(body.caption.text)
  {
    match body
    case Malformed => Failed(500, FailedToClean)
    case Parsed(caption) =>
      if !caption.Str? || caption.text == "" then Failed(400, InvalidInput)
      else Fixed(Normalise(caption.text))
  }

  // ---------------------------------------------------------------------------
  // Properties of step 1
  // ---------------------------------------------------------------------------

  lemma {:induction false} WordsOfCollapse(s: string)
    ensures Words(Collapse(s)) == Words(s)
  {
    if s != [] {
      var x := Collapse(s[1..]);
      WordsOfCollapse(s[1..]);
      CollapseShape(s[1..]);
      if IsSpace(s[0]) {
        if !(|s| > 1 && IsSpace(s[1])) {
          assert Collapse(s) == [' '] + x;
          assert ([' '] + x)[1..] == x;
        }
      } else {
        var c := [s[0]] + x;
        assert Collapse(s) == c;
        assert c[1..] == x;
        if |s| > 1 {
          assert |x| > 0 && (IsSpace(x[0]) <==> IsSpace(s[1]));
        }
      }
    }
  }

  /** Leading whitespace does not change the words. */
  lemma {:induction false} WordsDropBlankPrefix(s: string, i: nat)
    requires i <= |s| && forall k :: 0 <= k < i ==> IsSpace(s[k])
    ensures Words(s[i..]) == Words(s)
  {
    if i > 0 {
      var t := s[1..];
      assert forall k :: 0 <= k < i - 1 ==> IsSpace(t[k]) by {
        forall k | 0 <= k < i - 1 ensures IsSpace(t[k]) {
          assert t[k] == s[k + 1];
        }
      }
      WordsDropBlankPrefix(t, i - 1);
      assert t[i - 1..] == s[i..];
    }
  }

  lemma {:induction false} WordsDropLastSpace(s: string)
    requires |s| > 0 && IsSpace(s[|s| - 1])
    ensures Words(s[..|s| - 1]) == Words(s)
  {
    if |s| == 1 {
      assert Words(s) == Words(s[1..]);
    } else {
      var t := s[1..];
      var u := s[..|s| - 1];
      assert u[1..] == t[..|t| - 1];
      assert u[0] == s[0];
      WordsDropLastSpace(t);
      if !IsSpace(s[0]) && |t| > 1 && !IsSpace(t[0]) {
        assert u[1] == t[0];
      } else if !IsSpace(s[0]) && |t| > 1 {
        assert u[1] == t[0];
      } else if !IsSpace(s[0]) {
        assert Words(t) == [];
        assert u == [s[0]];
      }
    }
  }

  /** Trailing whitespace does not change the words. */
  lemma {:induction false} WordsDropBlankSuffix(s: string, j: nat)
    requires j <= |s| && forall k :: j <= k < |s| ==> IsSpace(s[k])
    ensures Words(s[..j]) == Words(s)
    decreases |s| - j
  {
    if j < |s| {
      var u := s[..|s| - 1];
      WordsDropLastSpace(s);
      assert forall k :: j <= k < |u| ==> IsSpace(u[k]) by {
        forall k | j <= k < |u| ensures IsSpace(u[k]) {
          assert u[k] == s[k];
        }
      }
      WordsDropBlankSuffix(u, j);
      assert u[..j] == s[..j];
    } else {
      assert s[..j] == s;
    }
  }

  lemma {:induction false} CleanTextIsJoinedWords(c: string)
    requires IsClean(c)
    ensures c == JoinWith(Words(c), " ")
  {
    if c != [] {
      var t := c[1..];
      if |c| == 1 {
        assert Words(c) == [[c[0]]] + Words([]);
      } else if IsSpace(c[1]) {
        var u := c[2..];
        assert IsClean(u) && |u| > 0 && u == t[1..] && c == [c[0]] + " " + u by {
          assert !DoubleSpaceAt(c, 1);
          CollapsedSlice(c, 2, |c|);
          assert c[2..|c|] == u;
        }
        CleanTextIsJoinedWords(u);
        assert Words(c) == [[c[0]]] + Words(u);
        JoinCons([c[0]], Words(u), " ");
      } else {
        assert IsClean(t) && c == [c[0]] + t by {
          CollapsedSlice(c, 1, |c|);
          assert c[1..|c|] == t;
        }
        CleanTextIsJoinedWords(t);
        JoinHead(c[0], Words(t), " ");
      }
    }
  }

  /** `trim` does not change the words. */
  lemma WordsOfTrim(c: string)
    ensures Words(Trim(c)) == Words(c)
  {
    var i, r := RunEnd(c, 0), Trim(c);
    WordsDropBlankPrefix(c, i);
    var m := c[i..];
    assert r == m[..|r|];
    assert forall k :: |r| <= k < |m| ==> IsSpace(m[k]) by {
      forall k | |r| <= k < |m| ensures IsSpace(m[k]) {
        assert m[k] == c[i + k];
      }
    }
    WordsDropBlankSuffix(m, |r|);
  }

  /** Step 1 agrees with its reference reading: the cleaned text is the words
      of the input joined by single spaces. */
  lemma CleanIsJoinedWords(s: string)
    ensures Clean(s) == JoinWith(Words(s), " ")
  {
    var c := Collapse(s);
    WordsOfCollapse(s);
    WordsOfTrim(c);
    assert Clean(s) == Trim(c);
    CleanTextIsJoinedWords(Trim(c));
  }

  /** Adding or removing whitespace that leaves the words unchanged does not
      change the cleaned text. */
  lemma CleanDependsOnlyOnWords(s: string, t: string)
    requires Words(s) == Words(t)
    ensures Clean(s) == Clean(t)
  {
    CleanIsJoinedWords(s);
    CleanIsJoinedWords(t);
  }

  /** `trim` leaves text alone whose ends are not whitespace. */
  lemma TrimUntouched(s: string)
    requires s == [] || (!IsSpace(s[0]) && !IsSpace(s[|s| - 1]))
    ensures Trim(s) == s
  {
  }

  // ---------------------------------------------------------------------------
  // Properties of step 2
  // ---------------------------------------------------------------------------

  lemma {:induction false} SplitFromSkip(s: string, k: nat, m: nat)
    requires 1 <= k <= m
    requires forall j :: k <= j < m ==> !IsBreakAt(s, j)
    ensures SplitFrom(s, k) == SplitFrom(s, m)
    decreases m - k
  {
    if k < m && k < |s| {
      SplitFromSkip(s, k + 1, m);
    }
  }

  /** The shape of the pieces of cleaned text: each piece clean and free of
      separators, each piece but the last ending in a terminal mark. */
  predicate PiecesShape(ps: seq<string>) {
    && (forall i :: 0 <= i < |ps| - 1 ==> EndsTerminal(ps[i]))
    && (forall i :: 0 <= i < |ps| ==> IsClean(ps[i]) && NoBreak(ps[i]))
  }

  lemma PiecesShapeCons(p: string, ps: seq<string>)
    requires EndsTerminal(p) && IsClean(p) && NoBreak(p) && PiecesShape(ps)
    ensures PiecesShape([p] + ps)
  {
  }

  /** At a separator of cleaned text the whitespace run is one space and
      something follows it. */
  lemma CleanBreak(c: string, k: nat)
    requires IsClean(c) && IsBreakAt(c, k)
    ensures k + 1 < |c| && c == c[..k] + " " + c[k + 1..]
    ensures RunEnd(c, k) == k + 1
    ensures IsClean(c[k + 1..]) && c[k + 1..] != []
    ensures IsClean(c[..k]) && EndsTerminal(c[..k])
  {
    assert !DoubleSpaceAt(c, k);
    CollapsedSlice(c, k + 1, |c|);
    assert c[k + 1..|c|] == c[k + 1..];
    CollapsedSlice(c, 0, k);
  }

  /** Splitting cleaned text and joining the pieces with single spaces gives
      the text back. */
  lemma {:induction false} SplitFromJoin(c: string, k: nat)
    requires IsClean(c) && 1 <= k
    ensures JoinWith(SplitFrom(c, k), " ") == c
    decreases |c|, |c| - k
  {
    if k >= |c| {
    } else if IsBreakAt(c, k) {
      CleanBreak(c, k);
      SplitFromJoin(c[k + 1..], 1);
      JoinCons(c[..k], SplitFrom(c[k + 1..], 1), " ");
    } else {
      SplitFromJoin(c, k + 1);
    }
  }

  lemma {:induction false} SplitFromShape(c: string, k: nat)
    requires IsClean(c) && 1 <= k
    requires forall j :: 1 <= j < k ==> !IsBreakAt(c, j)
    ensures PiecesShape(SplitFrom(c, k))
    decreases |c|, |c| - k
  {
    if k >= |c| {
    } else if IsBreakAt(c, k) {
      var head, rest := c[..k], c[k + 1..];
      assert IsClean(rest) && IsClean(head) && EndsTerminal(head)
        && SplitFrom(c, k) == [head] + SplitFrom(rest, 1) by {
        CleanBreak(c, k);
      }
      assert NoBreak(head) by {
        forall j | 0 < j < |head| ensures !IsBreakAt(head, j) {
          assert !IsBreakAt(c, j);
        }
      }
      SplitFromShape(rest, 1);
      PiecesShapeCons(head, SplitFrom(rest, 1));
    } else {
      SplitFromShape(c, k + 1);
    }
  }

  predicate NoEmptyPiece(ps: seq<string>) {
    forall i :: 0 <= i < |ps| ==> ps[i] != []
  }

  /** The pieces of non-empty cleaned text are non-empty. */
  lemma {:induction false} SplitFromNonEmpty(c: string, k: nat)
    requires IsClean(c) && 1 <= k && c != []
    ensures NoEmptyPiece(SplitFrom(c, k))
    decreases |c|, |c| - k
  {
    if k >= |c| {
    } else if IsBreakAt(c, k) {
      var rest := c[k + 1..];
      var qs := SplitFrom(rest, 1);
      assert IsClean(rest) && rest != [] && SplitFrom(c, k) == [c[..k]] + qs by {
        CleanBreak(c, k);
      }
      SplitFromNonEmpty(rest, 1);
      assert NoEmptyPiece([c[..k]] + qs) by {
        forall i | 1 <= i < |qs| + 1 ensures ([c[..k]] + qs)[i] == qs[i - 1] { }
      }
    } else {
      SplitFromNonEmpty(c, k + 1);
    }
  }

  /** Splitting cleaned text: the pieces joined with single spaces give the
      text back; every piece but the last ends in a terminal mark; every piece
      is clean and holds no separator; no piece is empty unless the text is. */
  lemma SplitClean(c: string)
    requires IsClean(c)
    ensures JoinWith(Split(c), " ") == c
    ensures PiecesShape(Split(c))
    ensures c != [] ==> NoEmptyPiece(Split(c))
  {
    SplitFromJoin(c, 1);
    SplitFromShape(c, 1);
    if c != [] {
      SplitFromNonEmpty(c, 1);
    }
  }

  lemma {:induction false} BreakCountSkip(s: string, a: nat, b: nat)
    requires a <= b
    requires forall j :: a <= j < b ==> !IsBreakAt(s, j)
    ensures BreakCountFrom(s, a) == BreakCountFrom(s, b)
    decreases b - a
  {
    if a < b && a < |s| {
      BreakCountSkip(s, a + 1, b);
    }
  }

  lemma {:induction false} BreakCountShift(s: string, e: nat, j: nat)
    requires e <= |s| && 1 <= j
    ensures BreakCountFrom(s, e + j) == BreakCountFrom(s[e..], j)
    decreases |s| - (e + j)
  {
    if e + j < |s| {
      assert IsBreakAt(s, e + j) <==> IsBreakAt(s[e..], j) by {
        assert s[e..][j - 1] == s[e + j - 1] && s[e..][j] == s[e + j];
      }
      BreakCountShift(s, e, j + 1);
    }
  }

  /** The separators after the one at `k` are those of the text left once its
      whitespace run is consumed. */
  lemma BreakCountAfterRun(s: string, k: nat)
    requires IsBreakAt(s, k)
    ensures BreakCountFrom(s, k + 1) == BreakCountFrom(s[RunEnd(s, k)..], 1)
  {
    var e := RunEnd(s, k);
    calc {
      BreakCountFrom(s, k + 1);
      == {
           forall j | k + 1 <= j < e + 1 ensures !IsBreakAt(s, j) {
             assert IsSpace(s[j - 1]);
           }
           BreakCountSkip(s, k + 1, e + 1);
         }
      BreakCountFrom(s, e + 1);
      == { BreakCountShift(s, e, 1); }
      BreakCountFrom(s[e..], 1);
    }
  }

  /** One piece more than there are separators, for any string. */
  lemma {:induction false} SplitFromCount(s: string, k: nat)
    requires 1 <= k
    ensures |SplitFrom(s, k)| == 1 + BreakCountFrom(s, k)
    decreases |s|, |s| - k
  {
    if k >= |s| {
    } else if IsBreakAt(s, k) {
      BreakCountAfterRun(s, k);
      SplitFromCount(s[RunEnd(s, k)..], 1);
    } else {
      SplitFromCount(s, k + 1);
    }
  }

  lemma SplitCount(s: string)
    ensures |Split(s)| == 1 + BreakCount(s)
  {
    SplitFromCount(s, 1);
  }

  // ---------------------------------------------------------------------------
  // Properties of steps 3 and 4
  // ---------------------------------------------------------------------------

  lemma NoNewlineInClean(l: string)
    requires IsClean(l)
    ensures '\n' !in l
  {
  }

  lemma CollapsedSnoc(x: string, c: char)
    requires IsCollapsed(x) && !IsSpace(c)
    ensures IsCollapsed(x + [c])
  {
    var s := x + [c];
    forall i | 0 <= i < |s| - 1 ensures !DoubleSpaceAt(s, i) {
      if i < |x| - 1 { assert !DoubleSpaceAt(x, i); }
    }
  }

  /** A clean piece free of separators becomes a sentence: unchanged when it
      already ends in a terminal mark, with one '.' appended otherwise. */
  lemma PunctuatePiece(p: string)
    requires IsClean(p) && NoBreak(p)
    ensures IsSentence(Punctuate(p))
    ensures Punctuate(p) == if EndsTerminal(p) then p else p + "."
  {
    TrimUntouched(p);
    if !EndsTerminal(p) {
      var l := p + ".";
      CollapsedSnoc(p, '.');
      forall j | 0 < j < |l| ensures !IsBreakAt(l, j) {
        if j < |p| { assert !IsBreakAt(p, j); }
      }
    }
  }

  lemma PunctuatePieces(ps: seq<string>)
    requires forall i :: 0 <= i < |ps| ==> IsClean(ps[i]) && NoBreak(ps[i])
    ensures forall i :: 0 <= i < |ps| ==> IsSentence(PunctuateAll(ps)[i])
    ensures forall i :: 0 <= i < |ps| ==>
      PunctuateAll(ps)[i] == if EndsTerminal(ps[i]) then ps[i] else ps[i] + "."
  {
    forall i | 0 <= i < |ps|
      ensures IsSentence(PunctuateAll(ps)[i])
      ensures PunctuateAll(ps)[i] == if EndsTerminal(ps[i]) then ps[i] else ps[i] + "."
    {
      PunctuatePiece(ps[i]);
    }
  }

  /** The output lines are the pieces of the cleaned text, each unchanged when
      it ends in a terminal mark and given one '.' otherwise. */
  lemma NormaliseLinesFromPieces(caption: string)
    ensures var ps := Split(Clean(caption));
      && |NormaliseLines(caption)| == |ps|
      && forall i :: 0 <= i < |ps| ==>
           NormaliseLines(caption)[i] == if EndsTerminal(ps[i]) then ps[i] else ps[i] + "."
  {
    var ps := Split(Clean(caption));
    SplitClean(Clean(caption));
    PunctuatePieces(ps);
  }

  // ---------------------------------------------------------------------------
  // Re-normalising normalised text
  // ---------------------------------------------------------------------------

  /** Collapsing text that starts with collapsed text ending in a non-space
      leaves that start alone. */
  lemma {:induction false} CollapseAppend(x: string, y: string)
    requires IsCollapsed(x) && (x == [] || !IsSpace(x[|x| - 1]))
    ensures Collapse(x + y) == x + Collapse(y)
  {
    if x == [] {
      assert x + y == y;
    } else {
      var x' := x[1..];
      assert IsCollapsed(x') && (x' == [] || !IsSpace(x'[|x'| - 1])) by {
        CollapsedSlice(x, 1, |x|);
        assert x[1..|x|] == x';
      }
      CollapseAppend(x', y);
      var s := x + y;
      assert s[1..] == x' + y;
      assert s[0] == x[0];
      if IsSpace(x[0]) {
        assert x[0] == ' ';
        assert !DoubleSpaceAt(x, 0);
        assert s[1] == x[1];
        assert Collapse(s) == [' '] + Collapse(x' + y);
      } else {
        assert Collapse(s) == [x[0]] + Collapse(x' + y);
      }
      assert x == [x[0]] + x';
    }
  }

  lemma CollapseJoinStep(l: string, w: char, r: string)
    requires IsClean(l) && l != [] && IsSpace(w)
    requires r != [] && !IsSpace(r[0])
    ensures Collapse(l + [w] + r) == l + ([' '] + Collapse(r))
  {
    var t := [w] + r;
    assert Collapse(t) == [' '] + Collapse(r) by {
      assert t[1..] == r && t[1] == r[0];
    }
    assert Collapse(l + [w] + r) == l + Collapse(t) by {
      assert l + [w] + r == l + t;
      CollapseAppend(l, t);
    }
  }

  /** Sentences joined by any one whitespace character collapse to the same
      sentences joined by single spaces. */
  lemma {:induction false} CollapseJoined(ls: seq<string>, w: char)
    requires |ls| > 0 && IsSpace(w)
    requires forall i :: 0 <= i < |ls| ==> IsClean(ls[i]) && ls[i] != []
    ensures Collapse(JoinWith(ls, [w])) == JoinWith(ls, " ")
  {
    if |ls| == 1 {
      CollapseAppend(ls[0], []);
      assert ls[0] + [] == ls[0];
    } else {
      var r, x := JoinWith(ls[1..], [w]), JoinWith(ls[1..], " ");
      assert Collapse(r) == x by { CollapseJoined(ls[1..], w); }
      assert r != [] && !IsSpace(r[0]) by {
        JoinWithEnds(ls[1..], [w]);
        assert r[0] == ls[1][0];
      }
      assert Collapse(JoinWith(ls, [w])) == ls[0] + ([' '] + x) by {
        CollapseJoinStep(ls[0], w, r);
        assert JoinWith(ls, [w]) == ls[0] + [w] + r;
      }
      assert JoinWith(ls, " ") == ls[0] + ([' '] + x) by {
        assert JoinWith(ls, " ") == ls[0] + " " + x;
      }
    }
  }

  /** A sentence, a space and text starting with a non-space: the split cuts
      exactly after the sentence. */
  lemma SplitJoinStep(l: string, r: string)
    requires IsSentence(l) && r != [] && !IsSpace(r[0])
    ensures Split(l + " " + r) == [l] + Split(r)
  {
    var s := l + " " + r;
    assert Split(s) == SplitFrom(s, |l|) by {
      forall j | 1 <= j < |l| ensures !IsBreakAt(s, j) {
        assert s[j - 1] == l[j - 1] && s[j] == l[j];
        assert !IsBreakAt(l, j);
      }
      SplitFromSkip(s, 1, |l|);
    }
    assert IsBreakAt(s, |l|) by {
      assert s[|l| - 1] == l[|l| - 1] && s[|l|] == ' ';
    }
    assert RunEnd(s, |l|) == |l| + 1 by {
      assert s[|l| + 1] == r[0];
    }
    assert s[..|l|] == l && s[|l| + 1..] == r;
  }

  /** Sentences joined by single spaces split back into the same sentences. */
  lemma {:induction false} SplitJoinedSentences(ls: seq<string>)
    requires |ls| > 0 && forall i :: 0 <= i < |ls| ==> IsSentence(ls[i])
    ensures Split(JoinWith(ls, " ")) == ls
  {
    if |ls| == 1 {
      SplitFromSkip(ls[0], 1, |ls[0]|);
    } else {
      var r := JoinWith(ls[1..], " ");
      SplitJoinedSentences(ls[1..]);
      JoinWithEnds(ls[1..], " ");
      assert r[0] == ls[1][0];
      SplitJoinStep(ls[0], r);
      assert JoinWith(ls, " ") == ls[0] + " " + r;
      assert ls == [ls[0]] + ls[1..];
    }
  }

  /** Sentences joined by one whitespace character normalise back to themselves. */
  lemma SentencesAreFixed(ls: seq<string>, w: char)
    requires |ls| > 0 && IsSpace(w)
    requires forall i :: 0 <= i < |ls| ==> IsSentence(ls[i])
    ensures Clean(JoinWith(ls, [w])) == JoinWith(ls, " ")
    ensures NormaliseLines(JoinWith(ls, [w])) == ls
  {
    CollapseJoined(ls, w);
    var j := JoinWith(ls, " ");
    JoinWithEnds(ls, " ");
    assert j[0] == ls[0][0];
    assert j[|j| - 1] == ls[|ls| - 1][|ls[|ls| - 1]| - 1];
    TrimUntouched(j);
    SplitJoinedSentences(ls);
    PunctuatePieces(ls);
  }

  /** Text whose words are those of a list of sentences, however the
      whitespace between and inside them is laid out, normalises to exactly
      those sentences, one per line. */
  lemma SentencesSurviveWhitespace(ls: seq<string>, s: string)
    requires |ls| > 0 && forall i :: 0 <= i < |ls| ==> IsSentence(ls[i])
    requires Words(s) == Words(JoinWith(ls, " "))
    ensures NormaliseLines(s) == ls
  {
    CleanDependsOnlyOnWords(s, JoinWith(ls, " "));
    SentencesAreFixed(ls, ' ');
  }

  /** Normalising is idempotent: feeding the result back in returns it unchanged. */
  lemma NormaliseIdempotent(caption: string)
    ensures Normalise(Normalise(caption)) == Normalise(caption)
  {
    SentencesAreFixed(NormaliseLines(caption), '\n');
  }

  // ---------------------------------------------------------------------------
  // Edge cases
  // ---------------------------------------------------------------------------

  lemma {:induction false} WordsOfBlank(s: string)
    requires IsBlank(s)
    ensures Words(s) == []
  {
    if s != [] {
      assert IsBlank(s[1..]) by {
        forall i | 0 <= i < |s| - 1 ensures IsSpace(s[1..][i]) {
          assert s[1..][i] == s[i + 1];
        }
      }
      WordsOfBlank(s[1..]);
    }
  }

  /** A caption of whitespace only cleans to "" and normalises to a lone ".";
      when it is not empty the handler answers with that "." rather than an error. */
  lemma BlankNormalisesToDot(s: string)
    requires IsBlank(s)
    ensures Clean(s) == ""
    ensures Normalise(s) == "."
    ensures s != "" ==> Post(Parsed(Str(s))) == Fixed(".")
  {
    WordsOfBlank(s);
    CleanIsJoinedWords(s);
    assert Split("") == [""];
    assert Punctuate("") == ".";
    assert NormaliseLines(s) == ["."];
  }

  /** Text with no separator stays on one line: the cleaned text, with a '.'
      appended unless it already ends in a terminal mark. */
  lemma SingleSentence(s: string)
    requires BreakCount(Clean(s)) == 0
    ensures var c := Clean(s);
      Normalise(s) == if EndsTerminal(c) then c else c + "."
  {
    var c := Clean(s);
    var ps := Split(c);
    SplitClean(c);
    SplitCount(c);
    assert ps == [c];
    NormaliseLinesFromPieces(s);
    var lines := NormaliseLines(s);
    assert lines == [if EndsTerminal(c) then c else c + "."];
  }
}
