/**
 When a second run recognises what the first one wrote.

 The marker accepts white space after the version, so a version that ends in white space is read
 without it; the comparison of the second run is with the marker's text and still succeeds.
 */
module RuleRepeat {
  import opened Wrappers
  import opened RuleText
  import opened RuleEdit

  /** Word characters and dots, then at most white space. */
  ghost predicate Spaced(version: string) {
    exists i :: 0 < i <= |version| && AllIn(version[..i], WordOrDot) && AllIn(version[i..], Space)
  }

  ghost predicate Repeats(r: Rule) {
    Spaced(r.policyVersion) && FindEnd(Body(r)).None?
  }

  // ---------- a recognisable rule is found ----------

  lemma SpacedFits(r: Rule, i: nat, s: string) returns (pieces: seq<string>)
    requires 0 < i <= |r.policyVersion| && AllIn(r.policyVersion[..i], WordOrDot) && AllIn(r.policyVersion[i..], Space)
    requires Begin(r) <= s
    ensures Match(BEGIN, s) == Some(pieces) && Join(pieces) == Begin(r) && |pieces| == |BEGIN| && pieces[8] == r.sha
  {
    pieces := BeginPieces(r)[5 := r.policyVersion[..i]][6 := r.policyVersion[i..] + " "];
    SameText(r, i);
    MarkersAreDeterministic();
    assert InClass(' ', Space);
    forall j | 0 <= j < |BEGIN| ensures TokenFits(BEGIN[j], pieces[j]) { }
    hide *;
    PiecesFit(BEGIN, pieces, s);
    MatchExactly(BEGIN, s, pieces);
  }

  lemma {:induction false} JoinAppend(a: seq<string>, b: seq<string>)
    ensures Join(a + b) == Join(a) + Join(b)
    decreases |a|
  {
    if a == [] {
      assert a + b == b;
    } else {
      assert (a + b)[1..] == a[1..] + b;
      JoinAppend(a[1..], b);
    }
  }

  lemma JoinRegrouped(front: seq<string>, a: string, b: string, c: string, d: string, back: seq<string>)
    requires a + b == c + d
    ensures Join(front + ([a, b] + back)) == Join(front + ([c, d] + back))
  {
    JoinTwo(a, b);
    JoinTwo(c, d);
    hide Join;
    JoinAppend([a, b], back);
    JoinAppend([c, d], back);
    JoinAppend(front, [a, b] + back);
    JoinAppend(front, [c, d] + back);
  }

  lemma SameText(r: Rule, i: nat)
    requires 0 < i <= |r.policyVersion|
    ensures Join(BeginPieces(r)[5 := r.policyVersion[..i]][6 := r.policyVersion[i..] + " "]) == Begin(r)
  {
    var p, v := BeginPieces(r), r.policyVersion;
    var q := p[5 := v[..i]][6 := v[i..] + " "];
    assert p == p[..5] + ([v, " "] + p[7..]);
    assert q == p[..5] + ([v[..i], v[i..] + " "] + p[7..]);
    assert v[..i] + (v[i..] + " ") == v + " ";
    hide Join;
    JoinRegrouped(p[..5], v[..i], v[i..] + " ", v, " ", p[7..]);
  }

  lemma JoinTwo(a: string, b: string)
    ensures Join([a, b]) == a + b
  {
    assert [a, b][1..] == [b] && [b][1..] == [];
    assert Join([b]) == b + Join([]) == b;
  }

  /** What is found at the start of the rule's content. */
  lemma RepeatsReadsBack(r: Rule, post: string)
    requires Repeats(r)
    ensures var b := BlockHere(Content(r) + post);
      b.Some? && b.value.body == Body(r) && b.value.declaredSha == r.sha && b.value.start == 0 && b.value.end == |Content(r)| - 1
  {
    var i :| 0 < i <= |r.policyVersion| && AllIn(r.policyVersion[..i], WordOrDot) && AllIn(r.policyVersion[i..], Space);
    var s, n := Content(r) + post, |Begin(r)|;
    ContentSplits(r, post);
    var pieces := SpacedFits(r, i, s);
    hide *;
    EndFollowsBody(r, post);
    BlockFrom(s, pieces, n, Body(r), Found(|Body(r)|, |END_TEXT|));
  }

  lemma RepeatsSkips(pre: string, r: Rule, post: string, force: bool, hash: string -> Sha)
    requires NoMatch(BEGIN, pre) && Repeats(r) && IsRendered(r, hash)
    ensures AddText(Some(pre + Content(r) + post), r, force, hash) == Edit(Skipped, None)
  {
    hide Repeats, FindEnd;
    var t := pre + Content(r) + post;
    assert t == pre + (Content(r) + post);
    RepeatsReadsBack(r, post);
    var b := BlockHere(Content(r) + post).value;
    assert FindBlock(t) == Some(Shift(b, |pre|)) by {
      hide *;
      ContentOpens(r, post);
      FindBlockHere(Content(r) + post);
      FindBlockSkips(pre, Content(r) + post);
    }
    assert Begin(r) <= t[|pre|..|pre| + |Content(r)| - 1] by {
      hide FindBlock, Blocks, NoMatch, FindEnd;
      BeginLeads(pre, r, post);
    }
    hide Blocks, FindBlock, NoMatch, Content;
  }

  // ---------- a skipped rule is recognisable ----------

  /** No end marker lies before the leftmost. */
  lemma NoEndBefore(s: string)
    requires FindEnd(s).Some?
    ensures var f := FindEnd(s).value;
      FindEnd(s[..f.at]).None? && Match(END, s[f.at..]).Some? && f.length == MatchLength(END, s[f.at..])
  {
    var f := FindEnd(s).value;
    EndIsThere(s);
    MarkersAreMarkers();
    hide IsMarker;
    MatchOpens(END, s[f.at..]);
    hide *;
    FindEndSkips(s[..f.at], s[f.at..]);
    assert s == s[..f.at] + s[f.at..];
  }

  lemma {:induction false} EndIsThere(s: string)
    requires FindEnd(s).Some?
    ensures var f := FindEnd(s).value; Match(END, s[f.at..]).Some? && f.length == MatchLength(END, s[f.at..])
  {
    hide Match, Join;
    var f := FindEnd(s).value;
    if f.at == 0 {
      assert s[0..] == s;
    } else {
      EndIsThere(s[1..]);
      assert s[1..][f.at - 1..] == s[f.at..];
    }
  }

  /** A marker closes with `>`, and no other of its characters is one. */
  predicate ClosesLast(p: Pattern) {
    p != [] && p[|p| - 1] == Lit(CLOSE) && forall i | 0 <= i < |p| - 1 && p[i].Lit? :: '>' !in p[i].text
  }

  lemma MarkersCloseLast()
    ensures ClosesLast(BEGIN) && ClosesLast(END)
  {
    assert '>' !in BEGIN_WORD && '>' !in END_WORD && '>' !in OPEN && '>' !in "v=" && '>' !in "sha=";
  }

  lemma {:induction false} MarkerClosesOnce(p: Pattern, s: string, pieces: seq<string>)
    requires ClosesLast(p) && Fits(p, s, pieces)
    ensures var x := Join(pieces); |x| >= 3 && x[|x| - 3..] == CLOSE && forall i | 0 <= i < |x| - 1 :: x[i] != '>'
    decreases |p|
  {
    if |p| == 1 {
      assert pieces[1..] == [];
      assert Join(pieces) == CLOSE;
    } else {
      var x, rest := Join(pieces), Join(pieces[1..]);
      MarkerClosesOnce(p[1..], s[|pieces[0]|..], pieces[1..]);
      assert x == pieces[0] + rest;
      assert x[|x| - 3..] == rest[|rest| - 3..];
      forall i | 0 <= i < |x| - 1 ensures x[i] != '>' {
        if i < |pieces[0]| { assert x[i] in pieces[0]; } else { assert x[i] == rest[i - |pieces[0]|]; }
      }
    }
  }

  lemma BeginClosesLast(r: Rule)
    ensures |Begin(r)| > 3 && Begin(r)[|Begin(r)| - 3..] == CLOSE
  {
    JoinAppend(BeginPieces(r)[..10], [CLOSE]);
    assert BeginPieces(r) == BeginPieces(r)[..10] + [CLOSE];
    assert [CLOSE][1..] == [] && Join([CLOSE]) == CLOSE + Join([]);
    assert Join(BeginPieces(r)[..10]) != "" by { assert BeginPieces(r)[..10][0] == OPEN; }
  }

  /** A begin marker that the rule's own is read as lies within it. */
  lemma MarkerWithinBegin(r: Rule, u: string)
    requires Match(BEGIN, u).Some? && Begin(r) <= u
    ensures Join(Match(BEGIN, u).value) <= Begin(r)
  {
    var pieces := Match(BEGIN, u).value;
    MarkersCloseLast();
    BeginClosesLast(r);
    assert CLOSE[2] == '>';
    hide *;
    MatchFits(BEGIN, u);
    JoinIsPrefix(BEGIN, u, pieces);
    MarkerClosesOnce(BEGIN, u, pieces);
    var x, b := Join(pieces), Begin(r);
    assert u[|b| - 1] == b[|b| - 1] == b[|b| - 3..][2] == '>';
    assert x == u[..|x|];
  }

  /** The rule's own body was read somewhere behind the rule's own marker. */
  predicate ReadAs(r: Rule, u: string) {
    var b := BlockHere(u);
    b.Some? && b.value.body == Body(r) && Begin(r) <= u[..b.value.end]
  }

  /** The end marker that closes a block is the first one behind its begin marker. */
  lemma BlockParts(u: string) returns (n: nat, f: Found)
    requires BlockHere(u).Some?
    ensures var b := BlockHere(u).value;
      && Match(BEGIN, u).Some? && n == MatchLength(BEGIN, u) && FindEnd(u[n..]) == Some(f)
      && n + f.at + f.length == b.end && b.body == u[n..n + f.at]
  {
    n, f := MatchLength(BEGIN, u), FindEnd(u[MatchLength(BEGIN, u)..]).value;
    hide Match, FindEnd;
  }

  lemma ReadBodyHasNoEnd(r: Rule, u: string)
    requires ReadAs(r, u)
    ensures FindEnd(Body(r)).None?
  {
    var n, f := BlockParts(u);
    hide BlockHere, FindEnd, Match, Body, Begin;
    NoEndBefore(u[n..]);
    assert u[n..][..f.at] == u[n..n + f.at];
  }

  lemma {:induction false} EndNotLater(s: string, i: nat)
    requires i < |s| && Match(END, s[i..]).Some?
    ensures FindEnd(s).Some? && FindEnd(s).value.at <= i
  {
    hide Match;
    if i > 0 && Match(END, s).None? {
      assert s[1..][i - 1..] == s[i..];
      EndNotLater(s[1..], i - 1);
    } else {
      assert s[0..] == s;
    }
  }

  lemma BeginMatchesSame(r: Rule, u: string, s: string)
    requires Match(BEGIN, u).Some? && Begin(r) <= u && Begin(r) <= s
    ensures Match(BEGIN, s) == Match(BEGIN, u) && MatchLength(BEGIN, s) == MatchLength(BEGIN, u) <= |Begin(r)|
  {
    MarkersAreDeterministic();
    MarkerWithinBegin(r, u);
    hide Match, Begin, BEGIN, Deterministic;
    MatchIsLocal(BEGIN, u, s);
  }

  lemma BlockOpensHere(s: string)
    requires Match(BEGIN, s).Some? && FindEnd(s[MatchLength(BEGIN, s)..]).Some?
    ensures BlockHere(s).Some?
  {
    hide Match, FindEnd, MatchLength;
  }

  lemma ContentBegins(r: Rule, post: string)
    ensures Begin(r) <= Content(r) + post
  {
    hide *;
    ContentSplits(r, post);
  }

  lemma EndIsThereAt(r: Rule, post: string, m: nat)
    requires m == |Begin(r)| + |Body(r)|
    ensures m < |Content(r) + post| && Match(END, (Content(r) + post)[m..]).Some?
  {
    var c, rest := Content(r) + post, END_TEXT + ("\n" + post);
    ContentSplits(r, post);
    EndFits(rest);
    EndTextOpens();
    hide *;
    assert c[|Begin(r)|..][|Body(r)|..] == rest;
    assert c[m..] == rest;
  }

  lemma TailOfTail(s: string, n: nat, m: nat)
    requires n <= m <= |s|
    ensures s[n..][m - n..] == s[m..]
  {
  }

  /** A begin marker with an end marker somewhere behind it opens a block. */
  lemma EndBehindBegin(c: string, m: nat)
    requires Match(BEGIN, c).Some? && MatchLength(BEGIN, c) <= m < |c| && Match(END, c[m..]).Some?
    ensures BlockHere(c).Some?
  {
    hide *;
    var n := MatchLength(BEGIN, c);
    TailOfTail(c, n, m);
    EndNotLater(c[n..], m - n);
    BlockOpensHere(c);
  }

  /** The rule's content opens a block where its marker is read as one. */
  lemma ContentIsBlock(r: Rule, u: string, post: string)
    requires Match(BEGIN, u).Some? && Begin(r) <= u
    ensures BlockHere(Content(r) + post).Some?
  {
    hide *;
    ContentBegins(r, post);
    BeginMatchesSame(r, u, Content(r) + post);
    EndIsThereAt(r, post, |Begin(r)| + |Body(r)|);
    EndBehindBegin(Content(r) + post, |Begin(r)| + |Body(r)|);
  }

  lemma JoinLastTwo(pieces: seq<string>)
    requires |pieces| >= 2
    ensures Join(pieces) == Join(pieces[..|pieces| - 2]) + (pieces[|pieces| - 2] + pieces[|pieces| - 1])
  {
    hide Join;
    var n := |pieces|;
    assert pieces == pieces[..n - 2] + [pieces[n - 2], pieces[n - 1]];
    JoinAppend(pieces[..n - 2], [pieces[n - 2], pieces[n - 1]]);
    JoinTwo(pieces[n - 2], pieces[n - 1]);
  }

  /** A closing that follows one space and a character that is none was matched as it stands. */
  lemma OneSpaceBeforeClose(x: string, gap: string, before: string)
    requires x == before + (gap + CLOSE) && AllIn(gap, Space) && |before| > 0 && !InClass(before[|before| - 1], Space)
    requires |x| > 5 && InClass(x[|x| - 4], Space) && !InClass(x[|x| - 5], Space)
    ensures gap == [x[|x| - 4]] && |before| == |x| - 4
  {
    assert |CLOSE| == 3;
    assert forall i | 0 <= i < |gap| :: x[|before| + i] == gap[i] && gap[i] in gap;
    assert x[|before| - 1] == before[|before| - 1];
  }

  /** Two hexadecimal digits and one space come before the last three characters. */
  predicate ShaClose(x: string) {
    |x| > 5 && x[|x| - 4] == ' ' && InClass(x[|x| - 5], HexDigit) && InClass(x[|x| - 6], HexDigit)
  }

  /** No end marker closes with two hexadecimal digits and one space before its last characters. */
  lemma EndIsNoSha(s: string, pieces: seq<string>)
    requires Fits(END, s, pieces)
    ensures |Join(pieces)| > 5 && !ShaClose(Join(pieces))
  {
    var x, n := Join(pieces), |Join(pieces)|;
    FitsEach(END, s, pieces, 2);
    FitsEach(END, s, pieces, 3);
    FitsEach(END, s, pieces, 4);
    assert pieces[2] == END_WORD && AllIn(pieces[3], Space) && pieces[4] == CLOSE;
    JoinLastTwo(pieces);
    JoinLastTwo(pieces[..3]);
    var before := Join(pieces[..3]);
    var m := |before|;
    assert m >= 2 && before[m - 1] == END_WORD[13] == 'd' && before[m - 2] == END_WORD[12] == 'n';
    hide Fits, Join, END;
    if x[n - 4] == ' ' && InClass(x[n - 5], HexDigit) {
      OneSpaceBeforeClose(x, pieces[3], before);
      assert x[n - 6] == before[m - 2];
    }
  }

  lemma BeginTail(r: Rule)
    ensures |Begin(r)| > 6 && Begin(r)[|Begin(r)| - 1] == '>' && ShaClose(Begin(r))
  {
    var p := BeginPieces(r);
    JoinLastTwo(p);
    JoinLastTwo(p[..9]);
    var front := Join(p[..9][..7]) + ("sha=" + r.sha);
    assert Begin(r) == front + (" " + CLOSE);
    assert front[|front| - 1] == r.sha[11] && front[|front| - 2] == r.sha[10];
    assert r.sha[11] in r.sha && r.sha[10] in r.sha;
    hide Join, BeginPieces;
  }

  /** A text that starts inside `b`, has its only `>` at its end and does not close as `b` does ends inside `b`. */
  lemma EndsInside(c: string, b: string, x: string, e: nat)
    requires b <= c && e < |b| && |x| > 5 && x <= c[e..] && forall i | 0 <= i < |x| - 1 :: x[i] != '>'
    requires |b| > 6 && b[|b| - 1] == '>' && ShaClose(b) && !ShaClose(x)
    ensures e + |x| < |b|
  {
    hide InClass;
    assert forall i | 0 <= i < |x| :: x[i] == c[e + i];
    assert forall i | 0 <= i < |b| :: b[i] == c[i];
  }

  /** An end marker that starts inside the rule's own begin marker ends inside it as well. */
  lemma NoEndAcrossBegin(r: Rule, c: string, e: nat)
    requires Begin(r) <= c && e < |Begin(r)| && Match(END, c[e..]).Some?
    ensures e + MatchLength(END, c[e..]) < |Begin(r)|
  {
    var pieces := Match(END, c[e..]).value;
    MarkersCloseLast();
    BeginTail(r);
    MatchFits(END, c[e..]);
    EndIsNoSha(c[e..], pieces);
    assert MatchLength(END, c[e..]) == |Join(pieces)|;
    hide *;
    JoinIsPrefix(END, c[e..], pieces);
    MarkerClosesOnce(END, c[e..], pieces);
    EndsInside(c, Begin(r), Join(pieces), e);
  }

  /** With no end marker in the rule's body, none starts between its begin marker and its end marker. */
  lemma NoEndInBody(r: Rule, post: string, e: nat)
    requires FindEnd(Body(r)).None? && |Begin(r)| <= e < |Begin(r)| + |Body(r)| <= |Content(r) + post|
    ensures Match(END, (Content(r) + post)[e..]).None?
  {
    var c, k := Content(r) + post, |Begin(r)|;
    ContentSplits(r, post);
    EndFollowsBody(r, post);
    hide *;
    assert c[k..][e - k..] == c[e..];
    if Match(END, c[e..]).Some? { EndNotLater(c[k..], e - k); }
  }

  /** Where the rule's body is read behind its own marker, that marker was read to its end. */
  lemma MarkerIsWhole(r: Rule, post: string)
    requires ReadAs(r, Content(r) + post)
    ensures MatchLength(BEGIN, Content(r) + post) == |Begin(r)|
  {
    var c := Content(r) + post;
    ReadBodyHasNoEnd(r, c);
    var n, f := BlockParts(c);
    ContentSplits(r, post);
    assert BlockHere(c).value.body == Body(r) && Begin(r) <= c[..BlockHere(c).value.end];
    hide *;
    BeginMatchesSame(r, c, c);
    NoEndBefore(c[n..]);
    var e := n + f.at;
    assert c[n..][f.at..] == c[e..];
    if n < |Begin(r)| {
      if e < |Begin(r)| { NoEndAcrossBegin(r, c, e); } else { NoEndInBody(r, post, e); }
      assert false;
    }
  }

  lemma MatchStepIs(p: Pattern, x: string, rest: string)
    requires p != [] && Take(p[0], x + rest) == Some(x) && Match(p, x + rest).Some?
    ensures Match(p[1..], rest).Some?
    ensures Join(Match(p, x + rest).value) == x + Join(Match(p[1..], rest).value)
  {
    hide Take, TokenFits;
    assert (x + rest)[|x|..] == rest;
    assert ([x] + Match(p[1..], rest).value)[1..] == Match(p[1..], rest).value;
  }

  /** The version and what follows it, as the rule's whole marker was read. */
  lemma VersionPieces(r: Rule) returns (q: seq<string>)
    requires Match(BEGIN, Begin(r)).Some? && Join(Match(BEGIN, Begin(r)).value) == Begin(r)
    ensures var s := r.policyVersion + Join(BeginPieces(r)[6..]); Match(BEGIN[5..], s) == Some(q) && Join(q) == s
  {
    var s5 := r.policyVersion + Join(BeginPieces(r)[6..]);
    var s4 := "v=" + s5;
    var s3 := " " + s4;
    var s2 := BEGIN_WORD + s3;
    var s1 := " " + s2;
    BeginText(r);
    SpanIs(" ", s2, Space);
    SpanIs(" ", s4, Space);
    TakeLiterals(s1, s3, s5);
    TokensAre();
    hide BEGIN, OPEN, BEGIN_WORD, InClass, Match, Begin, BeginPieces, Join;
    MatchStepIs(BEGIN, OPEN, s1);
    MatchStepIs(BEGIN[1..], " ", s2);
    MatchStepIs(BEGIN[2..], BEGIN_WORD, s3);
    MatchStepIs(BEGIN[3..], " ", s4);
    MatchStepIs(BEGIN[4..], "v=", s5);
    q := Match(BEGIN[5..], s5).value;
    SameTail(OPEN, Join(Match(BEGIN[1..], s1).value), s1);
    SameTail(" ", Join(Match(BEGIN[2..], s2).value), s2);
    SameTail(BEGIN_WORD, Join(Match(BEGIN[3..], s3).value), s3);
    SameTail(" ", Join(Match(BEGIN[4..], s4).value), s4);
    SameTail("v=", Join(q), s5);
  }

  lemma SameTail(x: string, a: string, b: string)
    requires x + a == x + b
    ensures a == b
  {
    assert (x + a)[|x|..] == a && (x + b)[|x|..] == b;
  }

  lemma TrimmedIsSpaced(v: string, word: string, gap: string)
    requires word + gap == v + " " && |word| > 0 && AllIn(word, WordOrDot) && |gap| > 0 && AllIn(gap, Space)
    ensures Spaced(v)
  {
    hide InClass;
    assert |word| + |gap| == |v| + 1;
    assert v == (word + gap)[..|v|] == word + gap[..|gap| - 1];
    assert v[..|word|] == word && v[|word|..] == gap[..|gap| - 1];
    assert forall c | c in gap[..|gap| - 1] :: c in gap;
  }

  /** Two texts that close with a hash and one space agree on what comes before it. */
  lemma SameBeforeSha(a: string, b: string, sha: string, hash: string, last: string)
    requires a + ("sha=" + sha) + (last + CLOSE) == b + ("sha=" + hash) + (" " + CLOSE)
    requires IsSha(sha) && IsSha(hash) && AllIn(last, Space)
    ensures a == b
  {
    var before := a + ("sha=" + sha);
    var x, n := before + (last + CLOSE), |before + (last + CLOSE)|;
    assert sha[11] in sha && hash[11] in hash && before[|before| - 1] == sha[11] && |CLOSE| == 3;
    assert x == b + ("sha=" + hash) + (" " + CLOSE);
    assert x[n - 4] == ' ' && x[n - 5] == hash[11];
    assert !InClass(sha[11], Space) && !InClass(hash[11], Space) && InClass(' ', Space);
    hide InClass;
    OneSpaceBeforeClose(x, last, before);
    assert a == x[..n - 20] == b;
  }

  lemma Regroup(a: string, b: string, c: string, d: string)
    ensures a + (b + c + d) == a + b + c + d
  {
  }

  /** Read from its end, the marker's text leaves the version and one space for the pieces before the hash. */
  lemma VersionIsSpaced(r: Rule, q: seq<string>)
    requires var s := r.policyVersion + Join(BeginPieces(r)[6..]); Fits(BEGIN[5..], s, q) && Join(q) == s
    ensures Spaced(r.policyVersion)
  {
    var v := r.policyVersion;
    PiecesAre(r, q, Join(q));
    ShaTail(r);
    assert IsSha(q[3]) && IsSha(r.sha);
    hide *;
    Regroup(v, " ", "sha=" + r.sha, " " + CLOSE);
    SameBeforeSha(q[0] + q[1], v + " ", q[3], r.sha, q[4]);
    TrimmedIsSpaced(v, q[0], q[1]);
  }

  lemma PiecesAre(r: Rule, q: seq<string>, s: string)
    requires Fits(BEGIN[5..], s, q)
    ensures |q| == 6 && |q[0]| > 0 && AllIn(q[0], WordOrDot) && |q[1]| > 0 && AllIn(q[1], Space) && q[2] == "sha="
    ensures |q[3]| == 12 && AllIn(q[3], HexDigit) && AllIn(q[4], Space) && q[5] == CLOSE
    ensures Join(q) == q[0] + q[1] + ("sha=" + q[3]) + (q[4] + CLOSE)
  {
    var p := BEGIN[5..];
    assert p[0] == Run(WordOrDot, 1) && p[1] == Run(Space, 1) && p[2] == Lit("sha=") && p[3] == Exactly(HexDigit, 12)
           && p[4] == Run(Space, 0) && p[5] == Lit(CLOSE);
    forall i | 0 <= i < 6 ensures TokenFits(p[i], q[i]) { FitsEach(p, s, q, i); }
    JoinLastTwo(q);
    JoinLastTwo(q[..4]);
    assert q[..4][..2] == [q[0], q[1]];
    JoinTwo(q[0], q[1]);
  }

  lemma ShaTail(r: Rule)
    ensures Join(BeginPieces(r)[6..]) == " " + ("sha=" + r.sha) + (" " + CLOSE)
  {
    var p := BeginPieces(r)[6..];
    assert p == [" ", "sha=", r.sha, " ", CLOSE];
    JoinLastTwo(p);
    JoinLastTwo(p[..3]);
    assert p[..3][..1] == [" "] && [" "][1..] == [];
    assert Join([" "]) == " " + Join([]) == " ";
  }

  /** A rule read back whole has a version that the marker accepts, and a body without an end marker. */
  lemma ReadAsRepeats(r: Rule, post: string)
    requires ReadAs(r, Content(r) + post)
    ensures Repeats(r)
  {
    var c, b := Content(r) + post, Begin(r);
    ReadBodyHasNoEnd(r, c);
    MarkerIsWhole(r, post);
    ContentSplits(r, post);
    var n, f := BlockParts(c);
    hide Match, BEGIN, Begin, Body, Content, BlockHere, FindEnd, Fits, Join, BeginPieces, Spaced;
    BeginMatchesSame(r, c, b);
    MatchFits(BEGIN, b);
    JoinIsPrefix(BEGIN, b, Match(BEGIN, b).value);
    var q := VersionPieces(r);
    MatchFits(BEGIN[5..], r.policyVersion + Join(BeginPieces(r)[6..]));
    VersionIsSpaced(r, q);
  }

  /** What a run that skips found first. */
  lemma SkippedMeans(t: string, r: Rule, force: bool, hash: string -> Sha)
    requires AddText(Some(t), r, force, hash).action.Skipped?
    ensures FindBlock(t).Some? && var first := FindBlock(t).value;
      first.body == Body(r) && Begin(r) <= t[first.start..first.end]
  {
    hide FindBlock, Blocks, Begin, Body, Content;
  }

  lemma SkippedRepeats(pre: string, r: Rule, post: string, force: bool, hash: string -> Sha)
    requires NoMatch(BEGIN, pre) && AddText(Some(pre + Content(r) + post), r, force, hash).action.Skipped?
    ensures Repeats(r)
  {
    var c := Content(r) + post;
    var t := pre + c;
    assert pre + Content(r) + post == t;
    SkippedMeans(t, r, force, hash);
    var first := FindBlock(t).value;
    var u := t[first.start..];
    hide *;
    NothingOpensBefore(t);
    ReadThere(t, r, first, u);
    var n, f := BlockParts(u);
    ContentIsBlock(r, u, post);
    ContentOpens(r, post);
    FindBlockHere(c);
    FindBlockSkips(pre, c);
    ShiftedEnd(BlockHere(c).value, |pre|);
    assert u == c;
    ReadAsRepeats(r, post);
  }

  lemma ReadThere(t: string, r: Rule, first: Block, u: string)
    requires first.start < first.end <= |t| && u == t[first.start..] && BlockHere(u).Some?
    requires Shift(BlockHere(u).value, first.start) == first
    requires first.body == Body(r) && Begin(r) <= t[first.start..first.end]
    ensures ReadAs(r, u) && Begin(r) <= u
  {
    hide BlockHere, Begin, Body;
    assert u[..first.end - first.start] == t[first.start..first.end];
  }

  /**
   After a run that wrote text, another with the same rule skips exactly when the version is word
   characters and dots, at most followed by white space, and the body has no end marker.
   */
  lemma SecondRunSkipsExactly(existing: Option<string>, r: Rule, force: bool, again: bool, hash: string -> Sha)
    requires IsRendered(r, hash) && AddText(existing, r, force, hash).text.Some?
    ensures AddText(AddText(existing, r, force, hash).text, r, again, hash) == Edit(Skipped, None) <==> Repeats(r)
  {
    var t := AddText(existing, r, force, hash).text.value;
    WrittenTextHolds(existing, r, force, hash);
    var pre, post :| t == pre + Content(r) + post && NoMatch(BEGIN, pre);
    hide *;
    if Repeats(r) {
      RepeatsSkips(pre, r, post, again, hash);
    } else if AddText(Some(t), r, again, hash) == Edit(Skipped, None) {
      SkippedRepeats(pre, r, post, again, hash);
    }
  }

  /** Every readable rule repeats, and so does one whose version ends in a space, which is not readable. */
  lemma RepeatsIsWider(inner: string, hash: string -> Sha)
    requires FindEnd("\n" + inner + "\n").None?
    ensures var r := RenderRule("1.0 ", inner, hash); Repeats(r) && !Readable(r)
    ensures forall r | Readable(r) :: Repeats(r)
  {
    var v := "1.0 ";
    hide FindEnd;
    assert AllIn(v[..3], WordOrDot) && v[3..] == " " && AllIn(v[3..], Space);
    assert v[3] in v && !InClass(v[3], WordOrDot);
    forall r | Readable(r) ensures Repeats(r) {
      var w := r.policyVersion;
      assert w[..|w|] == w && w[|w|..] == "";
    }
  }
}
