/** Carriage returns in event streams. `runSseConnection` of `src/clients/horizon-contract-client.ts`
    splits the text at blank lines first and normalises the newlines of each piece afterwards. */
module SseNewlines {
  import opened Sequences
  import opened SseFraming

  /** Text whose every newline is a CRLF holds no frame end, so all its frames run together. */
  lemma CrlfBlankLinesDoNotSplit(s: string)
    requires forall i :: 0 <= i < |s| && s[i] == '\n' ==> i > 0 && s[i - 1] == '\r'
    ensures Split(s) == [s]
  {
    NoBlankInside(s);
  }

  function NormalizeAll(frames: seq<string>): seq<string> {
    if frames == [] then [] else [NormalizeNewlines(frames[0])] + NormalizeAll(frames[1..])
  }

  /** A blank line is hidden by a carriage return: "\n\r\n" occurs. */
  predicate HidesBlank(s: string) {
    |s| >= 3 && ((s[0] == '\n' && s[1] == '\r' && s[2] == '\n') || HidesBlank(s[1..]))
  }

  predicate EndsInCr(s: string) {
    s != [] && Last(s) == '\r'
  }

  /** No piece hides a blank line, and none but the last ends in half a CRLF. */
  predicate NewlinesAgree(frames: seq<string>) {
    frames == [] ||
    (!HidesBlank(frames[0]) && (|frames| > 1 ==> !EndsInCr(frames[0])) && NewlinesAgree(frames[1..]))
  }

  lemma {:induction false} NormalizeConcat(a: string, b: string)
    requires !(EndsInCr(a) && b != [] && b[0] == '\n')
    ensures NormalizeNewlines(a + b) == NormalizeNewlines(a) + NormalizeNewlines(b)
    decreases |a|
  {
    if a == [] {
      assert a + b == b;
    } else if |a| == 1 {
      DropConcat(a, b, 1);
      assert b == [] ==> a + b == a;
      assert a[1..] + b == b && [a[0]] == a;
    } else {
      var n := if a[0] == '\r' && a[1] == '\n' then 2 else 1;
      DropConcat(a, b, n);
      NormalizeConcat(a[n..], b);
      ConcatAssoc(if n == 2 then "\n" else [a[0]], NormalizeNewlines(a[n..]), NormalizeNewlines(b));
    }
  }

  lemma BlankCons(c: char, s: string)
    ensures FirstBlank([c] + s) < |[c] + s| <==> (c == '\n' && s != [] && s[0] == '\n') || FirstBlank(s) < |s|
  {
    assert ([c] + s)[1..] == s;
  }

  /** The text begins with a newline of either kind. */
  predicate StartsLine(s: string) {
    |s| > 0 && (s[0] == '\n' || (|s| > 1 && s[0] == '\r' && s[1] == '\n'))
  }

  lemma NormalizedStart(s: string)
    ensures NormalizeNewlines(s) != [] && NormalizeNewlines(s)[0] == '\n' <==> StartsLine(s)
  {
  }

  lemma HidesCons(s: string)
    requires s != []
    ensures HidesBlank(s) <==> (|s| >= 3 && s[0] == '\n' && s[1] == '\r' && s[2] == '\n') || HidesBlank(s[1..])
  {
  }

  /** In text without blank lines, normalising uncovers one exactly where one was hidden. */
  lemma {:induction false} HiddenBlankShows(s: string)
    requires FirstBlank(s) == |s|
    ensures FirstBlank(NormalizeNewlines(s)) < |NormalizeNewlines(s)| <==> HidesBlank(s)
    decreases |s|
  {
    if |s| >= 2 {
      assert s == [s[0]] + s[1..];
      BlankCons(s[0], s[1..]);
      if s[0] == '\r' && s[1] == '\n' {
        CrlfFirst(s);
        HiddenBlankShows(s[2..]);
      } else {
        HiddenBlankShows(s[1..]);
        BlankCons(s[0], NormalizeNewlines(s[1..]));
        NormalizedStart(s[1..]);
      }
    }
  }

  lemma CrlfFirst(s: string)
    requires FirstBlank(s) == |s| && |s| >= 2 && s[0] == '\r' && s[1] == '\n'
    ensures FirstBlank(s[2..]) == |s[2..]|
    ensures var n := NormalizeNewlines(s[2..]);
            FirstBlank("\n" + n) < |"\n" + n| <==> StartsLine(s[2..]) || FirstBlank(n) < |n|
    ensures HidesBlank(s) <==> StartsLine(s[2..]) || HidesBlank(s[2..])
  {
    assert s == [s[0]] + s[1..] && s[1..] == [s[1]] + s[2..];
    BlankCons(s[0], s[1..]);
    BlankCons(s[1], s[2..]);
    BlankCons('\n', NormalizeNewlines(s[2..]));
    NormalizedStart(s[2..]);
    HidesCons(s);
    HidesCons(s[1..]);
    DropDrop(s, 1, 1);
  }

  lemma {:induction false} FirstPiece(s: string)
    requires FirstBlank(s) < |s|
    ensures var p := s[..FirstBlank(s)];
            FirstBlank(p) == |p| && (p != [] ==> Last(p) != '\n') && s == p + "\n\n" + s[|p| + 2..]
  {
    var i := FirstBlank(s);
    if i > 0 {
      FirstPiece(s[1..]);
      var q := s[1..][..i - 1];
      assert s[..i] == [s[0]] + q;
      BlankCons(s[0], q);
      assert q != [] ==> q[0] == s[1];
    }
    assert s[i..i + 2] == "\n\n";
    assert s == s[..i] + s[i..i + 2] + s[i + 2..];
  }

  lemma SplitStart(s: string)
    ensures Split(s)[0] == s[..FirstBlank(s)]
  {
    assert s[..|s|] == s;
  }

  /** A clean piece comes out as it went in. */
  lemma CleanPiece(p: string, rest: string)
    requires FirstBlank(p) == |p| && (p != [] ==> Last(p) != '\n') && !HidesBlank(p) && !EndsInCr(p)
    ensures Split(NormalizeNewlines(p + "\n\n" + rest)) == [NormalizeNewlines(p)] + Split(NormalizeNewlines(rest))
  {
    var np, nr := NormalizeNewlines(p), NormalizeNewlines(rest);
    NormalizeAround(p, rest);
    HiddenBlankShows(p);
    if p != [] {
      NormalizedEnd(p);
    }
    BlankAfterFrame(np, nr);
    var ns := np + "\n\n" + nr;
    assert ns[..|np|] == np && ns[|np| + 2..] == nr;
  }

  lemma NormalizeAround(p: string, rest: string)
    requires !EndsInCr(p)
    ensures NormalizeNewlines(p + "\n\n" + rest) == NormalizeNewlines(p) + "\n\n" + NormalizeNewlines(rest)
  {
    ConcatAssoc(p, "\n\n", rest);
    NormalizeConcat(p, "\n\n" + rest);
    NormalizeConcat("\n\n", rest);
    NormalizeKeepsLf("\n\n");
    ConcatAssoc(NormalizeNewlines(p), "\n\n", NormalizeNewlines(rest));
  }

  /** A piece that hides a blank line is cut there once it is normalised. */
  lemma HidingPiece(p: string, rest: string)
    requires FirstBlank(p) == |p| && HidesBlank(p) && !EndsInCr(p)
    ensures Split(NormalizeNewlines(p + "\n\n" + rest))[0] != NormalizeNewlines(p)
  {
    var np, nr := NormalizeNewlines(p), NormalizeNewlines(rest);
    NormalizeAround(p, rest);
    HiddenBlankShows(p);
    ConcatAssoc(np, "\n\n", nr);
    FirstBlankAppend(np, "\n\n" + nr);
    SplitStart(np + "\n\n" + nr);
  }

  lemma {:induction false} NormalizedEnd(p: string)
    requires p != []
    ensures NormalizeNewlines(p) != [] && Last(NormalizeNewlines(p)) == Last(p)
  {
    if |p| >= 2 && p[0] == '\r' && p[1] == '\n' {
      if |p| > 2 {
        NormalizedEnd(p[2..]);
      }
    } else if |p| >= 2 {
      NormalizedEnd(p[1..]);
    }
  }

  /** A carriage return before a blank line is swallowed, so it cannot end the normalised piece. */
  lemma HalfCrlfPiece(p: string, rest: string)
    requires EndsInCr(p)
    ensures Split(NormalizeNewlines(p + "\n\n" + rest))[0] != NormalizeNewlines(p)
  {
    var q, tail := Init(p), "\r\n\n" + rest;
    var np, ns, nq := NormalizeNewlines(p), NormalizeNewlines(p + "\n\n" + rest), NormalizeNewlines(q);
    assert p == q + "\r" && p + "\n\n" + rest == q + tail;
    NormalizeConcat(q, "\r");
    NormalizeConcat(q, tail);
    assert NormalizeNewlines(tail)[0] == '\n';
    assert np[|nq|] == '\r' && ns[|nq|] == '\n';
    SplitStart(ns);
    assert |nq| < FirstBlank(ns) ==> ns[..FirstBlank(ns)][|nq|] == '\n';
  }

  /** Splitting first and normalising each piece, as the code does, gives the frames of the
      normalised text exactly when no piece hides a blank line and no piece but the last ends in a
      carriage return. */
  lemma {:induction false} FramesAgreeExactly(text: string)
    ensures NormalizeAll(Split(text)) == Split(NormalizeNewlines(text)) <==> NewlinesAgree(Split(text))
    decreases |text|
  {
    var i := FirstBlank(text);
    if i == |text| {
      OnePieceAgrees(text);
    } else {
      var p, rest := text[..i], text[i + 2..];
      FirstPiece(text);
      FramesAgreeExactly(rest);
      MorePieces(p, Split(rest));
      if EndsInCr(p) {
        HalfCrlfPiece(p, rest);
      } else if HidesBlank(p) {
        HidingPiece(p, rest);
      } else {
        CleanPiece(p, rest);
        ConsAgree(NormalizeNewlines(p), NormalizeAll(Split(rest)), Split(NormalizeNewlines(rest)));
      }
    }
  }

  lemma OnePieceAgrees(text: string)
    requires FirstBlank(text) == |text|
    ensures NormalizeAll([text]) == Split(NormalizeNewlines(text)) <==> NewlinesAgree([text])
  {
    var ntext := NormalizeNewlines(text);
    HiddenBlankShows(text);
    assert [text][1..] == [];
    SplitStart(ntext);
  }

  lemma MorePieces(p: string, frames: seq<string>)
    requires frames != []
    ensures NormalizeAll([p] + frames) == [NormalizeNewlines(p)] + NormalizeAll(frames)
    ensures NewlinesAgree([p] + frames) <==> !HidesBlank(p) && !EndsInCr(p) && NewlinesAgree(frames)
  {
    assert ([p] + frames)[1..] == frames;
  }
}
