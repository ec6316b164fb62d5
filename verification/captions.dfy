/** Caption normalisation done by the worker before a result is recorded:
    captions are stripped, split into sentences, and cut to three sentences.
    utils/worker_thread_chat_completion.py, `request_extract_keyword`. */
module Captions {
  import opened Text

  /** Sentence ends used when the caption holds any ASCII character. */
  const AsciiEnds: set<char> := {'.', '!', '?'}

  /** Sentence ends used when the caption holds no ASCII character at all. */
  const AllEnds: set<char> := {'.', '!', '?', '。', '！', '？'}

  /** The most sentences a caption keeps. */
  const MaxSentences: nat := 3

  /** `any(ord(c) < 128 for c in s)`. */
  predicate HasAscii(s: string) {
    exists i :: 0 <= i < |s| && s[i] as int < 128
  }

  /** The delimiter class of the split pattern chosen for `s`. */
  function Ends(s: string): set<char> {
    if HasAscii(s) then AsciiEnds else AllEnds
  }

  /** Position `i` of `s` is where the pattern `[ends](?=\s|$)` matches: a
      delimiter followed by whitespace or by the end of the string. */
  predicate IsBoundary(s: string, ends: set<char>, i: int) {
    0 <= i < |s| && s[i] in ends && (i + 1 == |s| || IsSpace(s[i + 1]))
  }

  /** The first match at or after `i`, or `|s|` when there is none. */
  function FirstBoundaryFrom(s: string, ends: set<char>, i: nat): (k: nat)
    requires i <= |s|
    ensures i <= k <= |s|
    ensures k < |s| ==> IsBoundary(s, ends, k)
    ensures forall j :: i <= j < k ==> !IsBoundary(s, ends, j)
    decreases |s| - i
  {
    if i == |s| then |s|
    else if IsBoundary(s, ends, i) then i
    else FirstBoundaryFrom(s, ends, i + 1)
  }

  /** What `re.split(pattern, s)` returns: the text between matches, the
      matched delimiter itself dropped. */
  function Pieces(s: string, ends: set<char>): (ps: seq<string>)
    ensures |ps| >= 1
    decreases |s|
  {
    var k := FirstBoundaryFrom(s, ends, 0);
    if k == |s| then [s] else [s[..k]] + Pieces(s[k + 1..], ends)
  }

  /** `[p.strip() for p in ps if p.strip()]`. */
  function Clean(ps: seq<string>): seq<string> {
    if ps == [] then []
    else (var x := Strip(ps[0]); if x == [] then [] else [x]) + Clean(ps[1..])
  }

  /** `count_sentences(s)`: the sentences of `s`, split with the delimiter set
      its ASCII content selects. */
  function Sentences(s: string): seq<string> {
    Clean(Pieces(s, Ends(s)))
  }

  /** The caption as stored in the result: stripped, and when it has more
      than three sentences, the first three joined by ". " plus a final ".". */
  function Normalise(caption: string): string {
    var t := Strip(caption);
    var ss := Sentences(t);
    if |ss| > MaxSentences then Truncate(ss) else t
  }

  /** The first three sentences joined by ". ", with a final ".". */
  function Truncate(ss: seq<string>): string
    requires |ss| >= MaxSentences
  {
    Join(ss[..MaxSentences], ". ") + "."
  }

  /** The delimiter at `i` is followed by whitespace inside `x`. */
  predicate EndInside(x: string, ends: set<char>, i: int) {
    0 <= i < |x| - 1 && x[i] in ends && IsSpace(x[i + 1])
  }

  /** No delimiter inside `x` is followed by whitespace. */
  predicate NoInnerEnd(x: string, ends: set<char>) {
    forall i :: 0 <= i < |x| ==> !EndInside(x, ends, i)
  }

  /** A sentence as the splitter yields it: non-empty, stripped, and free of
      sentence ends. */
  predicate Clause(x: string, ends: set<char>) {
    x != [] && Stripped(x) && NoInnerEnd(x, ends)
  }

  lemma NoInnerEndInfix(x: string, ends: set<char>, lo: int, hi: int)
    requires 0 <= lo <= hi <= |x|
    requires NoInnerEnd(x, ends)
    ensures NoInnerEnd(x[lo..hi], ends)
  {
    var y := x[lo..hi];
    forall i | 0 <= i < |y| - 1
      ensures !EndInside(y, ends, i)
    {
      assert !EndInside(x, ends, lo + i);
      assert y[i] == x[lo + i] && y[i + 1] == x[lo + i + 1];
    }
  }

  /** No piece of a split holds a sentence end inside it. */
  lemma {:induction false} PiecesHaveNoInnerEnd(s: string, ends: set<char>)
    ensures forall p :: p in Pieces(s, ends) ==> NoInnerEnd(p, ends)
    decreases |s|
  {
    var k := FirstBoundaryFrom(s, ends, 0);
    var first := s[..k];
    assert NoInnerEnd(first, ends) by {
      forall i | 0 <= i < |first| - 1
        ensures !EndInside(first, ends, i)
      {
        assert !IsBoundary(s, ends, i);
        assert first[i] == s[i] && first[i + 1] == s[i + 1];
      }
    }
    if k < |s| {
      var rest := Pieces(s[k + 1..], ends);
      PiecesHaveNoInnerEnd(s[k + 1..], ends);
      assert Pieces(s, ends) == [first] + rest;
      forall p | p in [first] + rest
        ensures NoInnerEnd(p, ends)
      {
        if p != first {
          assert p in rest;
        }
      }
    } else {
      assert first == s;
    }
  }

  lemma {:induction false} CleanGivesClauses(ps: seq<string>, ends: set<char>)
    requires forall p :: p in ps ==> NoInnerEnd(p, ends)
    ensures forall x :: x in Clean(ps) ==> Clause(x, ends)
  {
    if ps != [] {
      var x := Strip(ps[0]);
      assert NoInnerEnd(x, ends) by {
        assert ps[0] in ps;
        NoInnerEndInfix(ps[0], ends, Lead(ps[0]), Lead(ps[0]) + |x|);
      }
      assert forall p :: p in ps[1..] ==> NoInnerEnd(p, ends) by {
        forall p | p in ps[1..] ensures NoInnerEnd(p, ends) {
          assert p in ps;
        }
      }
      CleanGivesClauses(ps[1..], ends);
      var head := if x == [] then [] else [x];
      assert Clean(ps) == head + Clean(ps[1..]);
      forall y | y in Clean(ps) ensures Clause(y, ends) {
        if y !in Clean(ps[1..]) {
          assert y in head;
        }
      }
    }
  }

  /** Every sentence is non-empty, stripped, and contains no sentence end of
      the delimiter set chosen for its caption. */
  lemma SentencesAreClauses(s: string)
    ensures forall x :: x in Sentences(s) ==> Clause(x, Ends(s))
  {
    PiecesHaveNoInnerEnd(s, Ends(s));
    CleanGivesClauses(Pieces(s, Ends(s)), Ends(s));
  }

  /** A sentence with no end of a larger delimiter set has none of a smaller one. */
  lemma ClauseForFewerEnds(x: string, big: set<char>, small: set<char>)
    requires small <= big
    requires Clause(x, big)
    ensures Clause(x, small)
  {
    forall i | 0 <= i < |x|
      ensures !EndInside(x, small, i)
    {
      assert !EndInside(x, big, i);
    }
  }

  /** A stripped sentence followed by "." and then whitespace or nothing is
      split off as exactly one piece. */
  lemma SplitAfterClause(pre: string, x: string, z: string)
    requires pre == "" || pre == " "
    requires Clause(x, AsciiEnds)
    requires z == [] || IsSpace(z[0])
    ensures Pieces(pre + x + "." + z, AsciiEnds) == [pre + x] + Pieces(z, AsciiEnds)
  {
    var w := pre + x + "." + z;
    var k := |pre| + |x|;
    assert w[k] == '.';
    assert IsBoundary(w, AsciiEnds, k) by {
      if z != [] { assert w[k + 1] == z[0]; }
    }
    forall j | 0 <= j < k
      ensures !IsBoundary(w, AsciiEnds, j)
    {
      if j < |pre| {
        assert w[j] == ' ';
      } else {
        var i := j - |pre|;
        assert w[j] == x[i];
        if i < |x| - 1 {
          assert !EndInside(x, AsciiEnds, i);
          assert w[j + 1] == x[i + 1];
        } else {
          assert w[j + 1] == '.';
        }
      }
    }
    assert FirstBoundaryFrom(w, AsciiEnds, 0) == k;
    assert w[..k] == pre + x;
    assert w[k + 1..] == z;
  }

  /** Cleaning distributes over a leading piece. */
  lemma CleanCons(x: string, rest: seq<string>)
    ensures Clean([x] + rest) == Clean([x]) + Clean(rest)
  {
    assert ([x] + rest)[0] == x;
    assert ([x] + rest)[1..] == rest;
    assert [x][1..] == [];
  }

  /** A piece that strips to a sentence `x` is cleaned to `[x]`. */
  lemma CleanSingle(piece: string, x: string)
    requires Strip(piece) == x && x != []
    ensures Clean([piece]) == [x]
  {
    assert [piece][1..] == [];
  }

  /** A piece stripping to a sentence, followed by pieces that clean to
      `rest`, cleans to that sentence followed by `rest`. */
  lemma CleanStep(piece: string, x: string, ps: seq<string>, rest: seq<string>)
    requires Strip(piece) == x && x != [] && Clean(ps) == rest
    ensures Clean([piece] + ps) == [x] + rest
  {
    CleanCons(piece, ps);
    CleanSingle(piece, x);
  }

  lemma CleanEmptyPiece()
    ensures Clean([""]) == []
  {
    assert [""][1..] == [];
  }

  lemma PiecesOfEmpty()
    ensures Pieces("", AsciiEnds) == [""]
  {
  }

  /** "A. B. C." cut after each of its three full stops. */
  lemma ThreeSentenceText(a: string, b: string, c: string)
    ensures a + ". " + b + ". " + c + "." == "" + a + "." + (" " + b + ". " + c + ".")
    ensures " " + b + ". " + c + "." == " " + b + "." + (" " + c + ".")
    ensures " " + c + "." == " " + c + "." + ""
    ensures "" + a == a
  {
  }

  lemma PiecesOfLast(c: string)
    requires Clause(c, AsciiEnds)
    ensures Pieces(" " + c + ".", AsciiEnds) == [" " + c] + [""]
  {
    ThreeSentenceText(c, c, c);
    PiecesOfEmpty();
    SplitAfterClause(" ", c, "");
  }

  lemma PiecesOfMiddle(b: string, c: string)
    requires Clause(b, AsciiEnds)
    ensures Pieces(" " + b + ". " + c + ".", AsciiEnds) == [" " + b] + Pieces(" " + c + ".", AsciiEnds)
  {
    ThreeSentenceText(b, b, c);
    SplitAfterClause(" ", b, " " + c + ".");
  }

  lemma PiecesOfFirst(a: string, b: string, c: string)
    requires Clause(a, AsciiEnds)
    ensures Pieces(a + ". " + b + ". " + c + ".", AsciiEnds) == [a] + Pieces(" " + b + ". " + c + ".", AsciiEnds)
  {
    ThreeSentenceText(a, b, c);
    SplitAfterClause("", a, " " + b + ". " + c + ".");
  }

  /** "A. B. C." splits into "A", " B", " C" and a final empty piece. */
  lemma PiecesOfThree(a: string, b: string, c: string)
    requires Clause(a, AsciiEnds) && Clause(b, AsciiEnds) && Clause(c, AsciiEnds)
    ensures Pieces(a + ". " + b + ". " + c + ".", AsciiEnds) == [a] + ([" " + b] + ([" " + c] + [""]))
  {
    PiecesOfFirst(a, b, c);
    PiecesOfMiddle(b, c);
    PiecesOfLast(c);
  }

  lemma CleanOfLastTwo(c: string)
    requires c != [] && Stripped(c)
    ensures Clean([" " + c] + [""]) == [c] + []
  {
    CleanEmptyPiece();
    StripSpacePrefix(c);
    CleanStep(" " + c, c, [""], []);
  }

  lemma CleanOfLastThree(b: string, c: string)
    requires b != [] && c != [] && Stripped(b) && Stripped(c)
    ensures Clean([" " + b] + ([" " + c] + [""])) == [b] + ([c] + [])
  {
    CleanOfLastTwo(c);
    StripSpacePrefix(b);
    CleanStep(" " + b, b, [" " + c] + [""], [c] + []);
  }

  lemma CleanOfThree(a: string, b: string, c: string)
    requires a != [] && b != [] && c != []
    requires Stripped(a) && Stripped(b) && Stripped(c)
    ensures Clean([a] + ([" " + b] + ([" " + c] + [""]))) == [a] + ([b] + ([c] + []))
  {
    CleanOfLastThree(b, c);
    StrippedIsFixpoint(a);
    CleanStep(a, a, [" " + b] + ([" " + c] + [""]), [b] + ([c] + []));
  }

  lemma ThreeList(a: string, b: string, c: string)
    ensures [a] + ([b] + ([c] + [])) == [a, b, c]
  {
  }

  /** "A. B. C." holds an ASCII character, so it is split at ASCII ends. */
  lemma ThreeSentencesAscii(a: string, b: string, c: string)
    ensures Ends(a + ". " + b + ". " + c + ".") == AsciiEnds
  {
    var r := a + ". " + b + ". " + c + ".";
    assert r[|a|] == '.';
  }

  /** Three sentences written back as "A. B. C." split into exactly those
      three sentences again. */
  lemma ThreeClausesSplitBack(a: string, b: string, c: string)
    requires Clause(a, AsciiEnds) && Clause(b, AsciiEnds) && Clause(c, AsciiEnds)
    ensures Sentences(a + ". " + b + ". " + c + ".") == [a, b, c]
  {
    ThreeSentencesAscii(a, b, c);
    PiecesOfThree(a, b, c);
    CleanOfThree(a, b, c);
    ThreeList(a, b, c);
  }

  lemma JoinThree(a: string, b: string, c: string)
    ensures Join([a, b, c], ". ") == a + ". " + b + ". " + c
  {
    assert [a, b, c][1..] == [b, c];
    assert [b, c][1..] == [c];
    assert Join([c], ". ") == c;
    assert Join([b, c], ". ") == b + ". " + c;
  }

  /** The truncated caption: the first three sentences joined by ". " with
      a final "."; the original "!" and "?" are not kept. */
  lemma TruncatedForm(caption: string)
    requires |Sentences(Strip(caption))| > MaxSentences
    ensures var ss := Sentences(Strip(caption));
            Normalise(caption) == ss[0] + ". " + ss[1] + ". " + ss[2] + "."
  {
    TruncateForm(Sentences(Strip(caption)));
  }

  lemma TruncateForm(ss: seq<string>)
    requires |ss| >= MaxSentences
    ensures Truncate(ss) == ss[0] + ". " + ss[1] + ". " + ss[2] + "."
  {
    assert ss[..3] == [ss[0], ss[1], ss[2]];
    JoinThree(ss[0], ss[1], ss[2]);
  }

  /** The first three sentences of a caption, all free of ASCII sentence ends. */
  lemma FirstThreeAreClauses(t: string)
    requires |Sentences(t)| > MaxSentences
    ensures var ss := Sentences(t);
            Clause(ss[0], AsciiEnds) && Clause(ss[1], AsciiEnds) && Clause(ss[2], AsciiEnds)
  {
    var ss := Sentences(t);
    SentencesAreClauses(t);
    assert ss[0] in ss && ss[1] in ss && ss[2] in ss;
    ClauseForFewerEnds(ss[0], Ends(t), AsciiEnds);
    ClauseForFewerEnds(ss[1], Ends(t), AsciiEnds);
    ClauseForFewerEnds(ss[2], Ends(t), AsciiEnds);
  }

  lemma TruncatedSplitsBack(caption: string)
    requires |Sentences(Strip(caption))| > MaxSentences
    ensures var ss := Sentences(Strip(caption));
            Sentences(Normalise(caption)) == ss[..MaxSentences]
  {
    var ss := Sentences(Strip(caption));
    FirstThreeAreClauses(Strip(caption));
    TruncatedForm(caption);
    ThreeClausesSplitBack(ss[0], ss[1], ss[2]);
    FirstThree(ss);
  }

  lemma FirstThree(ss: seq<string>)
    requires |ss| >= 3
    ensures ss[..3] == [ss[0], ss[1], ss[2]]
  {
  }

  /** "A. B. C." is stripped when "A" starts with a non-space. */
  lemma ThreeClausesStripped(a: string, b: string, c: string)
    requires a != [] && !IsSpace(a[0])
    ensures Stripped(a + ". " + b + ". " + c + ".")
  {
    var r := a + ". " + b + ". " + c + ".";
    assert r[0] == a[0];
  }

  lemma TruncatedIsStripped(caption: string)
    requires |Sentences(Strip(caption))| > MaxSentences
    ensures Stripped(Normalise(caption))
  {
    var ss := Sentences(Strip(caption));
    FirstThreeAreClauses(Strip(caption));
    TruncatedForm(caption);
    ThreeClausesStripped(ss[0], ss[1], ss[2]);
  }

  /** Normalisation keeps exactly the first three sentences of the stripped
      caption (all of them when there are at most three). */
  lemma NormaliseKeepsFirstSentences(caption: string)
    ensures var ss := Sentences(Strip(caption));
            Sentences(Normalise(caption)) == if |ss| > MaxSentences then ss[..MaxSentences] else ss
    ensures |Sentences(Normalise(caption))| <= MaxSentences
  {
    if |Sentences(Strip(caption))| > MaxSentences {
      TruncatedSplitsBack(caption);
    }
  }

  /** A normalised caption is left alone by a second normalisation. */
  lemma NormaliseIdempotent(caption: string)
    ensures Normalise(Normalise(caption)) == Normalise(caption)
  {
    NormaliseKeepsFirstSentences(caption);
    if |Sentences(Strip(caption))| > MaxSentences {
      TruncatedIsStripped(caption);
      StrippedIsFixpoint(Normalise(caption));
    } else {
      StripIdempotent(caption);
    }
  }

  /** When a caption contains an ASCII character (a plain space is enough),
      the full-width marks "。！？" never end a sentence. */
  lemma AsciiCaptionIgnoresFullWidthEnds(s: string, i: int)
    requires HasAscii(s)
    requires 0 <= i < |s| && s[i] in {'。', '！', '？'}
    ensures !IsBoundary(s, Ends(s), i)
  {
  }
}
