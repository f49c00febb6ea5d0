/**
 Managed blocks in rule files: the markers, the extraction of blocks, and their removal.

 A marker is matched by a list of tokens, each a literal or a run of characters of one class.
 `Fits` says what a regular expression of that shape accepts; `Match` is the greedy matcher, and
 the two agree because no run can swallow what the next token starts with.
 */
module RuleText {
  import opened Wrappers

  datatype Class = Space | WordOrDot | HexDigit

  datatype Token =
    | Lit(text: string)
    | Run(kind: Class, min: nat)
    | Exactly(kind: Class, n: nat)

  type Pattern = seq<Token>

  predicate InClass(c: char, k: Class) {
    match k
    case Space =>
      c in {'\t', '\n', '\U{0B}', '\U{0C}', '\r', ' ', '\U{A0}', '\U{1680}', '\U{2028}', '\U{2029}', '\U{202F}', '\U{205F}',
            '\U{3000}', '\U{FEFF}'} || '\U{2000}' <= c <= '\U{200A}'
    case WordOrDot => 'a' <= c <= 'z' || 'A' <= c <= 'Z' || '0' <= c <= '9' || c == '_' || c == '.'
    case HexDigit => '0' <= c <= '9' || 'a' <= c <= 'f'
  }

  /** The classes by their members, white space by the code points that ECMAScript gives to it. */
  lemma ClassMembers(c: char)
    ensures InClass(c, HexDigit) <==> c in "0123456789abcdef"
    ensures InClass(c, WordOrDot) <==>
      c in "0123456789" || c in "ABCDEFGHIJKLMNOPQRSTUVWXYZ" || c in "abcdefghijklmnopqrstuvwxyz" || c == '_' || c == '.'
    ensures InClass(c, Space) <==>
      c as int in {9, 10, 11, 12, 13, 32, 0xa0, 0x1680, 0x2000, 0x2001, 0x2002, 0x2003, 0x2004, 0x2005, 0x2006, 0x2007,
                   0x2008, 0x2009, 0x200a, 0x2028, 0x2029, 0x202f, 0x205f, 0x3000, 0xfeff}
  {
  }

  const OPEN := "<!--"
  const BEGIN_WORD := "lyrashield:begin"
  const END_WORD := "lyrashield:end"
  const CLOSE := "-->"

  const BEGIN: Pattern := [
    Lit(OPEN), Run(Space, 0), Lit(BEGIN_WORD), Run(Space, 1), Lit("v="), Run(WordOrDot, 1), Run(Space, 1),
    Lit("sha="), Exactly(HexDigit, 12), Run(Space, 0), Lit(CLOSE)
  ]

  const END: Pattern := [Lit(OPEN), Run(Space, 0), Lit(END_WORD), Run(Space, 0), Lit(CLOSE)]

  // ---------- what a pattern accepts ----------

  predicate AllIn(x: string, k: Class) { forall c | c in x :: InClass(c, k) }

  predicate TokenFits(t: Token, x: string) {
    match t
    case Lit(text) => x == text
    case Run(k, min) => |x| >= min && AllIn(x, k)
    case Exactly(k, n) => |x| == n && AllIn(x, k)
  }

  /** The tokens accept a prefix of `s`, cut into the given pieces. */
  predicate Fits(p: Pattern, s: string, pieces: seq<string>)
    decreases |p|
  {
    |pieces| == |p|
    && (p != [] ==> pieces[0] <= s && TokenFits(p[0], pieces[0]) && Fits(p[1..], s[|pieces[0]|..], pieces[1..]))
  }

  function Join(pieces: seq<string>): string {
    if pieces == [] then "" else pieces[0] + Join(pieces[1..])
  }

  // ---------- the greedy matcher ----------

  function Span(s: string, k: Class): (r: string)
    ensures r <= s && AllIn(r, k)
  {
    if s != "" && InClass(s[0], k) then [s[0]] + Span(s[1..], k) else ""
  }

  /** The longest prefix the token accepts. */
  function Take(t: Token, s: string): (r: Option<string>)
    ensures r.Some? ==> r.value <= s && TokenFits(t, r.value)
  {
    match t
    case Lit(text) => if text <= s then Some(text) else None
    case Run(k, min) => if |Span(s, k)| >= min then Some(Span(s, k)) else None
    case Exactly(k, n) => if n <= |s| && AllIn(s[..n], k) then Some(s[..n]) else None
  }

  function Match(p: Pattern, s: string): Option<seq<string>>
    decreases |p|
  {
    if p == [] then Some([])
    else
      match Take(p[0], s)
      case None => None
      case Some(x) =>
        match Match(p[1..], s[|x|..])
        case None => None
        case Some(rest) => Some([x] + rest)
  }

  /** What the token accepts starts with a character outside the class. */
  predicate StartsOutside(t: Token, k: Class) {
    match t
    case Lit(text) => text != "" && !InClass(text[0], k)
    case Run(next, min) => min > 0 && forall c | InClass(c, next) :: !InClass(c, k)
    case Exactly(next, n) => n > 0 && forall c | InClass(c, next) :: !InClass(c, k)
  }

  predicate Deterministic(p: Pattern) {
    forall i | 0 <= i < |p| && p[i].Run? :: i + 1 < |p| && StartsOutside(p[i + 1], p[i].kind)
  }

  lemma {:induction false} SpanIsLongest(s: string, k: Class, x: string)
    requires x <= s && AllIn(x, k)
    ensures x <= Span(s, k)
  {
    if x != "" {
      assert x[0] in x && s[0] == x[0];
      assert forall c | c in x[1..] :: c in x;
      SpanIsLongest(s[1..], k, x[1..]);
    }
  }

  /** Any piece that lets the next token start is the whole span. */
  lemma SpanIsForced(s: string, p: Pattern, k: Class, x: string, pieces: seq<string>)
    requires x <= s && AllIn(x, k) && p != [] && StartsOutside(p[0], k) && Fits(p, s[|x|..], pieces)
    ensures Span(s, k) == x
  {
    SpanIsLongest(s, k, x);
    var span := Span(s, k);
    var piece := pieces[0];
    assert piece != "" && s[|x|] == piece[0] && piece[0] in piece;
    assert forall i | 0 <= i < |span| :: span[i] == s[i] && span[i] in span;
  }

  lemma {:induction false} MatchFits(p: Pattern, s: string)
    requires Match(p, s).Some?
    ensures Fits(p, s, Match(p, s).value)
    decreases |p|
  {
    if p != [] { MatchFits(p[1..], s[|Take(p[0], s).value|..]); }
  }

  /** The greedy matcher finds the one way to fit the pattern, if there is any. */
  lemma {:induction false} MatchExactly(p: Pattern, s: string, pieces: seq<string>)
    requires Deterministic(p)
    ensures Match(p, s) == Some(pieces) <==> Fits(p, s, pieces)
    decreases |p|
  {
    hide InClass, StartsOutside;
    if Match(p, s).Some? { MatchFits(p, s); }
    if p != [] && Fits(p, s, pieces) {
      var x := pieces[0];
      assert Deterministic(p[1..]) by { TailIsDeterministic(p); }
      MatchExactly(p[1..], s[|x|..], pieces[1..]);
      if p[0].Run? { SpanIsForced(s, p[1..], p[0].kind, x, pieces[1..]); }
      assert s[..|x|] == x;
      assert Take(p[0], s) == Some(x);
      assert [x] + pieces[1..] == pieces;
    }
  }

  lemma TailIsDeterministic(p: Pattern)
    requires Deterministic(p) && p != []
    ensures Deterministic(p[1..])
    ensures p[0].Run? ==> |p| > 1 && StartsOutside(p[1..][0], p[0].kind)
  {
    hide StartsOutside;
    forall i | 0 <= i < |p[1..]| && p[1..][i].Run? ensures i + 1 < |p[1..]| && StartsOutside(p[1..][i + 1], p[1..][i].kind) {
      assert p[1..][i] == p[i + 1];
    }
  }

  lemma MarkersAreDeterministic()
    ensures Deterministic(BEGIN) && Deterministic(END)
  {
    assert BEGIN[1] == Run(Space, 0) && BEGIN[3] == Run(Space, 1) && BEGIN[5] == Run(WordOrDot, 1);
    assert StartsOutside(Lit(BEGIN_WORD), Space) && StartsOutside(Lit("v="), Space);
    assert StartsOutside(Run(Space, 1), WordOrDot) && StartsOutside(Lit("sha="), Space);
    assert StartsOutside(Lit(CLOSE), Space) && StartsOutside(Lit(END_WORD), Space);
  }

  // ---------- a match depends on its own characters only ----------

  lemma {:induction false} JoinIsPrefix(p: Pattern, s: string, pieces: seq<string>)
    requires Fits(p, s, pieces)
    ensures Join(pieces) <= s
    decreases |p|
  {
    if p != [] { JoinIsPrefix(p[1..], s[|pieces[0]|..], pieces[1..]); }
  }

  lemma {:induction false} FitsAnywhere(p: Pattern, s: string, t: string, pieces: seq<string>)
    requires Fits(p, s, pieces) && Join(pieces) <= t
    ensures Fits(p, t, pieces)
    decreases |p|
  {
    if p != [] {
      var n := |pieces[0]|;
      assert t[n..][..|Join(pieces[1..])|] == Join(pieces[1..]);
      FitsAnywhere(p[1..], s[n..], t[n..], pieces[1..]);
    }
  }

  /** A marker opens with `<`, and no other of its characters is one. */
  predicate IsMarker(p: Pattern) {
    Deterministic(p) && p != [] && p[0] == Lit(OPEN) && Plain(p[1..])
  }

  predicate Plain(p: Pattern) {
    forall t | t in p && t.Lit? :: '<' !in t.text
  }

  lemma MarkersAreMarkers()
    ensures IsMarker(BEGIN) && IsMarker(END)
  {
    MarkersAreDeterministic();
    hide Deterministic;
    NoOpenInWords();
    assert BEGIN[0] == Lit(OPEN) && END[0] == Lit(OPEN);
    forall t | t in BEGIN[1..] && t.Lit? ensures '<' !in t.text {
      assert t.text in {BEGIN_WORD, "v=", "sha=", CLOSE};
    }
    forall t | t in END[1..] && t.Lit? ensures '<' !in t.text {
      assert t.text in {END_WORD, CLOSE};
    }
  }

  lemma NoOpenInWords()
    ensures '<' !in BEGIN_WORD && '<' !in END_WORD && '<' !in CLOSE && '<' !in "v=" && '<' !in "sha="
  {
  }

  lemma {:induction false} PlainFits(p: Pattern, s: string, pieces: seq<string>)
    requires Plain(p) && Fits(p, s, pieces)
    ensures '<' !in Join(pieces)
    decreases |p|
  {
    if p != [] {
      assert p[0] in p && forall t | t in p[1..] :: t in p;
      PlainFits(p[1..], s[|pieces[0]|..], pieces[1..]);
    }
  }

  lemma MarkerOpensOnce(p: Pattern, s: string, pieces: seq<string>)
    requires IsMarker(p) && Fits(p, s, pieces)
    ensures |Join(pieces)| > 0 && Join(pieces)[0] == '<'
    ensures forall i | 0 < i < |Join(pieces)| :: Join(pieces)[i] != '<'
  {
    PlainFits(p[1..], s[|pieces[0]|..], pieces[1..]);
    var rest := Join(pieces[1..]);
    assert Join(pieces) == OPEN + rest;
    forall i | 0 < i < |Join(pieces)| ensures Join(pieces)[i] != '<' {
      if i >= 4 { assert Join(pieces)[i] == rest[i - 4]; }
    }
  }

  /** A match is the same wherever its own characters are the same. */
  lemma MatchIsLocal(p: Pattern, s: string, t: string)
    requires Deterministic(p) && Match(p, s).Some? && Join(Match(p, s).value) <= t
    ensures Match(p, t) == Match(p, s)
  {
    hide *;
    MatchFits(p, s);
    FitsAnywhere(p, s, t, Match(p, s).value);
    MatchExactly(p, t, Match(p, s).value);
  }

  /** A marker that starts before an opening `<` ends before it. */
  lemma MatchStopsAtOpen(p: Pattern, a: string, b: string)
    requires IsMarker(p) && a != "" && (b != "" ==> b[0] == '<')
    ensures Match(p, a + b) == Match(p, a)
  {
    hide Match, Deterministic, Plain;
    if Match(p, a + b).Some? {
      var pieces := Match(p, a + b).value;
      MatchOpens(p, a + b);
      assert b != "" ==> (a + b)[|a|] == b[0];
      MatchIsLocal(p, a + b, a);
    } else if Match(p, a).Some? {
      MatchOpens(p, a);
      MatchIsLocal(p, a, a + b);
    }
  }

  /** A matched marker opens with the one `<` it has. */
  lemma MatchOpens(p: Pattern, s: string)
    requires IsMarker(p) && Match(p, s).Some?
    ensures var text := Join(Match(p, s).value);
      && 0 < |text| <= |s| && text <= s && s[0] == '<'
      && forall i | 0 < i < |text| :: s[i] != '<'
  {
    var pieces := Match(p, s).value;
    hide *;
    MatchFits(p, s);
    JoinIsPrefix(p, s, pieces);
    MarkerOpensOnce(p, s, pieces);
  }

  // ---------- blocks ----------

  datatype Found = Found(at: nat, length: nat)

  /** Positions count from the start of the text searched. */
  datatype Block = Block(version: string, declaredSha: string, body: string, start: nat, end: nat)

  function MatchLength(p: Pattern, s: string): (n: nat)
    requires Match(p, s).Some?
    ensures n <= |s|
  {
    MatchFits(p, s);
    JoinIsPrefix(p, s, Match(p, s).value);
    |Join(Match(p, s).value)|
  }

  /** The leftmost end marker. */
  function FindEnd(s: string): (r: Option<Found>)
    ensures r.Some? ==> r.value.at + r.value.length <= |s| && r.value.length > 0
  {
    if s == "" then None
    else if Match(END, s).Some? then
      MarkersAreMarkers();
      MatchOpens(END, s);
      Some(Found(0, MatchLength(END, s)))
    else
      match FindEnd(s[1..])
      case None => None
      case Some(f) => Some(Found(f.at + 1, f.length))
  }

  /** The block that opens at the very start of the text. */
  function BlockHere(s: string): (r: Option<Block>)
    ensures r.Some? ==> r.value.start == 0 < r.value.end <= |s|
  {
    match Match(BEGIN, s)
    case None => None
    case Some(pieces) =>
      MatchFits(BEGIN, s);
      var n := MatchLength(BEGIN, s);
      match FindEnd(s[n..])
      case None => None
      case Some(f) => Some(Block(pieces[5], pieces[8], s[n..n + f.at], 0, n + f.at + f.length))
  }

  function Shift(b: Block, d: nat): Block { b.(start := b.start + d, end := b.end + d) }

  function ShiftAll(bs: seq<Block>, d: nat): (r: seq<Block>)
    ensures |r| == |bs| && forall i | 0 <= i < |bs| :: r[i] == Shift(bs[i], d)
  {
    seq(|bs|, i requires 0 <= i < |bs| => Shift(bs[i], d))
  }

  /** The leftmost block. */
  function FindBlock(s: string): (r: Option<Block>)
    ensures r.Some? ==> r.value.start < r.value.end <= |s|
  {
    if s == "" then None
    else if BlockHere(s).Some? then BlockHere(s)
    else
      match FindBlock(s[1..])
      case None => None
      case Some(b) => Some(Shift(b, 1))
  }

  /** All blocks: the leftmost, then those of the text after it. */
  function Blocks(s: string): (r: seq<Block>)
    ensures r == [] <==> FindBlock(s).None?
    ensures r != [] ==> FindBlock(s) == Some(r[0])
    decreases |s|
  {
    match FindBlock(s)
    case None => []
    case Some(b) => [b] + ShiftAll(Blocks(s[b.end..]), b.end)
  }

  lemma BlocksUnfold(s: string)
    ensures Blocks(s) == match FindBlock(s) case None => [] case Some(b) => [b] + ShiftAll(Blocks(s[b.end..]), b.end)
  {
    hide FindBlock, ShiftAll;
  }

  lemma ShiftTwice(bs: seq<Block>, d: nat, e: nat)
    ensures ShiftAll(ShiftAll(bs, d), e) == ShiftAll(bs, d + e)
  {
  }

  /** The next match, and what remains to be found after it. */
  lemma NextBlock(content: string, from: nat)
    requires from <= |content|
    ensures ShiftAll(Blocks(content[from..]), from) ==
      match FindBlock(content[from..])
      case None => []
      case Some(m) => [Shift(m, from)] + ShiftAll(Blocks(content[from + m.end..]), from + m.end)
  {
    hide FindBlock, Blocks;
    var rest := content[from..];
    BlocksUnfold(rest);
    if FindBlock(rest).Some? {
      var m := FindBlock(rest).value;
      assert rest[m.end..] == content[from + m.end..];
      ShiftCons(m, ShiftAll(Blocks(rest[m.end..]), m.end), from);
      ShiftTwice(Blocks(rest[m.end..]), m.end, from);
      hide ShiftAll, Shift;
    }
  }

  lemma ShiftCons(b: Block, bs: seq<Block>, d: nat)
    ensures ShiftAll([b] + bs, d) == [Shift(b, d)] + ShiftAll(bs, d)
  {
  }

  /** Collect the blocks by searching again from the end of each match. */
  method ExtractBlocks(content: string) returns (blocks: seq<Block>)
    ensures blocks == Blocks(content)
  {
    hide FindBlock, Blocks, ShiftAll;
    blocks := [];
    var lastIndex := 0;
    assert content[0..] == content;
    ShiftByNothing(Blocks(content));
    while true
      invariant lastIndex <= |content|
      invariant blocks + ShiftAll(Blocks(content[lastIndex..]), lastIndex) == Blocks(content)
      decreases |content| - lastIndex
    {
      NextBlock(content, lastIndex);
      var m := FindBlock(content[lastIndex..]);
      if m.None? { break; }
      blocks := blocks + [Shift(m.value, lastIndex)];
      lastIndex := lastIndex + m.value.end;
    }
  }

  lemma ShiftByNothing(bs: seq<Block>)
    ensures ShiftAll(bs, 0) == bs
  {
  }

  /** Each block ends before the next begins, and all lie within the text. */
  predicate Ordered(bs: seq<Block>, from: nat, length: nat) {
    bs == [] || (from <= bs[0].start < bs[0].end <= length && Ordered(bs[1..], bs[0].end, length))
  }

  lemma {:induction false} ShiftKeepsOrder(bs: seq<Block>, from: nat, length: nat, d: nat)
    requires Ordered(bs, from, length)
    ensures Ordered(ShiftAll(bs, d), from + d, length + d)
    decreases |bs|
  {
    if bs != [] {
      ShiftKeepsOrder(bs[1..], bs[0].end, length, d);
      assert ShiftAll(bs, d)[1..] == ShiftAll(bs[1..], d);
    }
  }

  lemma {:induction false} BlocksAreOrdered(s: string)
    ensures Ordered(Blocks(s), 0, |s|)
    decreases |s|
  {
    hide FindBlock;
    if FindBlock(s).Some? {
      var b := FindBlock(s).value;
      BlocksAreOrdered(s[b.end..]);
      ShiftKeepsOrder(Blocks(s[b.end..]), 0, |s| - b.end, b.end);
      assert Blocks(s)[1..] == ShiftAll(Blocks(s[b.end..]), b.end);
    }
  }

  // ---------- removal ----------

  /** The text outside the blocks, from a position on. */
  function Between(s: string, bs: seq<Block>, from: nat): string
    requires from <= |s| && Ordered(bs, from, |s|)
    decreases |bs|
  {
    if bs == [] then s[from..] else s[from..bs[0].start] + Between(s, bs[1..], bs[0].end)
  }

  lemma {:induction false} OrderedFrom(bs: seq<Block>, from: nat, length: nat, i: nat)
    requires Ordered(bs, from, length) && i < |bs|
    ensures Ordered(bs[i..], if i == 0 then from else bs[i - 1].end, length)
    ensures bs[i].start < bs[i].end <= length && (if i == 0 then from else bs[i - 1].end) <= bs[i].start
    decreases i
  {
    if i > 0 {
      OrderedFrom(bs[1..], bs[0].end, length, i - 1);
      assert bs[1..][i - 1..] == bs[i..];
    } else {
      assert bs[0..] == bs;
    }
  }

  lemma StartsThere(bs: seq<Block>, length: nat, i: nat)
    requires Ordered(bs, 0, length) && i < |bs|
    ensures bs[i].start < bs[i].end <= length
    ensures Ordered(bs[i..], bs[i].start, length) && Ordered(bs[i + 1..], bs[i].end, length)
    ensures i + 1 < |bs| ==> bs[i].end <= bs[i + 1].start
  {
    OrderedFrom(bs, 0, length, i);
    assert bs[i..][1..] == bs[i + 1..];
  }

  lemma NoBlocks(length: nat)
    ensures Ordered([], length, length)
  {
  }

  lemma SkipBetween(s: string, bs: seq<Block>, from: nat, to: nat)
    requires from <= to <= |s| && Ordered(bs, from, |s|) && to == if bs == [] then |s| else bs[0].start
    ensures Ordered(bs, to, |s|) && Between(s, bs, from) == s[from..to] + Between(s, bs, to)
  {
    assert s[from..] == s[from..to] + s[to..];
    assert s[from..to] + s[to..to] == s[from..to];
  }

  /** Cut the blocks out one by one, the last first. */
  method SpliceOut(content: string, blocks: seq<Block>) returns (cleaned: string)
    requires Ordered(blocks, 0, |content|)
    ensures cleaned == Between(content, blocks, 0)
  {
    hide Ordered;
    NoBlocks(|content|);
    cleaned := content;
    var i := |blocks|;
    assert blocks[i..] == [];
    ghost var done := |content|;
    while i > 0
      invariant 0 <= i <= |blocks| && done <= |content|
      invariant if i < |blocks| then done == blocks[i].start else done == |content|
      invariant Ordered(blocks[i..], done, |content|)
      invariant cleaned == content[..done] + Between(content, blocks[i..], done)
    {
      i := i - 1;
      var block := blocks[i];
      StartsThere(blocks, |content|, i);
      assert blocks[i..][1..] == blocks[i + 1..];
      ghost var tail := Between(content, blocks[i + 1..], block.end);
      assert cleaned[block.end..] == tail by {
        SkipBetween(content, blocks[i + 1..], block.end, done);
        assert (content[..done] + Between(content, blocks[i + 1..], done))[block.end..]
            == content[block.end..done] + Between(content, blocks[i + 1..], done);
      }
      cleaned := cleaned[..block.start] + cleaned[block.end..];
      done := block.start;
    }
    assert blocks[0..] == blocks;
  }

  // ---------- rules ----------

  predicate IsSha(s: string) { |s| == 12 && AllIn(s, HexDigit) }

  /** Twelve lower-case hex digits. */
  type Sha = s: string | IsSha(s) witness "000000000000"

  datatype Rule = Rule(policyVersion: string, inner: string, sha: Sha)

  function RenderRule(policyVersion: string, inner: string, hash: string -> Sha): Rule {
    Rule(policyVersion, inner, hash("\n" + inner + "\n"))
  }

  function BeginPieces(r: Rule): seq<string> {
    [OPEN, " ", BEGIN_WORD, " ", "v=", r.policyVersion, " ", "sha=", r.sha, " ", CLOSE]
  }

  const END_PIECES := [OPEN, " ", END_WORD, " ", CLOSE]

  function Begin(r: Rule): string { Join(BeginPieces(r)) }

  const END_TEXT := Join(END_PIECES)

  function Body(r: Rule): string { "\n" + r.inner + "\n" }

  function Content(r: Rule): string { Begin(r) + Body(r) + END_TEXT + "\n" }

  lemma JoinUnfolds(p: seq<string>, i: nat)
    requires i < |p|
    ensures Join(p[i..]) == p[i] + Join(p[i + 1..])
  {
    assert p[i..][1..] == p[i + 1..];
  }

  lemma {:induction false} JoinFrom(p: seq<string>, i: nat)
    requires i <= |p|
    ensures Join(p) == Join(p[..i]) + Join(p[i..])
  {
    if i == 0 {
      assert p[0..] == p;
    } else {
      JoinFrom(p[1..], i - 1);
      assert p[1..][..i - 1] == p[..i][1..] && p[1..][i - 1..] == p[i..];
    }
  }

  /** The text that is written, marker by marker. */
  lemma ContentText(r: Rule)
    ensures Begin(r) == "<!-- lyrashield:begin v=" + r.policyVersion + " sha=" + r.sha + " -->"
    ensures END_TEXT == "<!-- lyrashield:end -->"
    ensures Content(r) == Begin(r) + ("\n" + r.inner + "\n") + "<!-- lyrashield:end -->" + "\n"
  {
    hide Begin, END_TEXT;
    BeginMarkerText(r);
    EndMarkerText();
  }

  lemma BeginMarkerText(r: Rule)
    ensures Begin(r) == "<!-- lyrashield:begin v=" + r.policyVersion + " sha=" + r.sha + " -->"
  {
    var p := BeginPieces(r);
    assert Begin(r) == Join(p) && |p| == 11 && p[5] == r.policyVersion && p[6] == " " && p[7] == "sha=" && p[8] == r.sha;
    hide Join, BeginPieces, Begin;
    JoinFrom(p, 5);
    OpeningText(r);
    JoinUnfolds(p, 5);
    JoinUnfolds(p, 6);
    JoinUnfolds(p, 7);
    JoinUnfolds(p, 8);
    ClosingText(r);
    assert " " + "sha=" == " sha=";
  }

  lemma OpensWith(word: string)
    ensures OPEN + (" " + word) == "<!-- " + word
  {
    assert OPEN + " " == "<!-- ";
  }

  lemma BeginLiteral()
    ensures OPEN + (" " + (BEGIN_WORD + (" " + "v="))) == "<!-- lyrashield:begin v="
  {
    BeginWordLiteral();
    OpensWith(BEGIN_WORD + (" " + "v="));
    hide OPEN, BEGIN_WORD;
    assert "<!-- " + "lyrashield:begin v=" == "<!-- lyrashield:begin v=";
  }

  lemma BeginWordLiteral()
    ensures BEGIN_WORD + (" " + "v=") == "lyrashield:begin v="
  {
  }

  lemma EndLiteral()
    ensures OPEN + (" " + (END_WORD + (" " + CLOSE))) == "<!-- lyrashield:end -->"
  {
    EndWordLiteral();
    OpensWith(END_WORD + (" " + CLOSE));
    hide OPEN, END_WORD, CLOSE;
    assert "<!-- " + "lyrashield:end -->" == "<!-- lyrashield:end -->";
  }

  lemma EndWordLiteral()
    ensures END_WORD + (" " + CLOSE) == "lyrashield:end -->"
  {
  }

  lemma JoinFive(p: seq<string>)
    requires |p| == 5
    ensures Join(p) == p[0] + (p[1] + (p[2] + (p[3] + p[4])))
  {
    JoinUnfolds(p, 0);
    JoinUnfolds(p, 1);
    JoinUnfolds(p, 2);
    JoinUnfolds(p, 3);
    JoinUnfolds(p, 4);
    assert p[0..] == p && p[5..] == [] && Join([]) == "";
  }

  lemma OpeningText(r: Rule)
    ensures Join(BeginPieces(r)[..5]) == "<!-- lyrashield:begin v="
  {
    BeginLiteral();
    var p := BeginPieces(r)[..5];
    assert p[0] == OPEN && p[1] == " " && p[2] == BEGIN_WORD && p[3] == " " && p[4] == "v=";
    hide Join, OPEN, BEGIN_WORD, BeginPieces;
    JoinFive(p);
  }

  lemma ClosingText(r: Rule)
    ensures Join(BeginPieces(r)[9..]) == " -->"
  {
    var p := BeginPieces(r);
    JoinUnfolds(p, 9);
    JoinUnfolds(p, 10);
    assert p[11..] == [];
  }

  lemma EndMarkerText()
    ensures END_TEXT == "<!-- lyrashield:end -->"
  {
    EndLiteral();
    var p := END_PIECES;
    assert p[0] == OPEN && p[1] == " " && p[2] == END_WORD && p[3] == " " && p[4] == CLOSE;
    hide Join, OPEN, END_WORD, CLOSE, END_PIECES;
    JoinFive(p);
  }

  /** The rule's marker and body survive a reading. */
  predicate Readable(r: Rule) {
    r.policyVersion != "" && AllIn(r.policyVersion, WordOrDot) && FindEnd(Body(r)).None?
  }

  /** The block a reader should find at the start of the rule's content. */
  function OwnBlock(r: Rule): Block {
    Block(r.policyVersion, r.sha, Body(r), 0, |Content(r)| - 1)
  }

  lemma {:induction false} PiecesFit(p: Pattern, pieces: seq<string>, s: string)
    requires |p| == |pieces| && (forall i | 0 <= i < |p| :: TokenFits(p[i], pieces[i])) && Join(pieces) <= s
    ensures Fits(p, s, pieces)
    decreases |p|
  {
    hide TokenFits;
    if p != [] {
      var n := |pieces[0]|;
      assert s[n..][..|Join(pieces[1..])|] == Join(pieces[1..]);
      PiecesFit(p[1..], pieces[1..], s[n..]);
    }
  }

  lemma BeginFits(r: Rule, s: string)
    requires r.policyVersion != "" && AllIn(r.policyVersion, WordOrDot) && Begin(r) <= s
    ensures Match(BEGIN, s) == Some(BeginPieces(r))
  {
    var pieces := BeginPieces(r);
    MarkersAreDeterministic();
    forall i | 0 <= i < |BEGIN| ensures TokenFits(BEGIN[i], pieces[i]) { }
    hide *;
    PiecesFit(BEGIN, pieces, s);
    MatchExactly(BEGIN, s, pieces);
  }

  lemma EndFits(s: string)
    requires END_TEXT <= s
    ensures Match(END, s) == Some(END_PIECES)
  {
    MarkersAreDeterministic();
    forall i | 0 <= i < |END| ensures TokenFits(END[i], END_PIECES[i]) { }
    PiecesFit(END, END_PIECES, s);
    MatchExactly(END, s, END_PIECES);
  }

  // ---------- reading a rule back ----------

  predicate NoMatch(p: Pattern, s: string) {
    forall i | 0 <= i < |s| :: Match(p, s[i..]).None?
  }

  /** Text without an end marker is passed over up to the next opening. */
  lemma {:induction false} FindEndSkips(a: string, b: string)
    requires b != "" && b[0] == '<'
    ensures FindEnd(a).None? ==>
      FindEnd(a + b) == match FindEnd(b) case None => None case Some(f) => Some(Found(f.at + |a|, f.length))
    ensures FindEnd(a).Some? ==> FindEnd(a + b) == FindEnd(a)
  {
    if a == "" {
      assert a + b == b;
    } else {
      MarkersAreMarkers();
      assert Match(END, a + b) == Match(END, a) by { MatchStopsAtOpen(END, a, b); }
      hide Match, END, IsMarker, Join;
      assert (a + b)[1..] == a[1..] + b;
      FindEndSkips(a[1..], b);
    }
  }

  lemma BlockFrom(s: string, pieces: seq<string>, n: nat, body: string, f: Found)
    requires Match(BEGIN, s) == Some(pieces) && n == |Join(pieces)| <= |s| && FindEnd(s[n..]) == Some(f) && s[n..n + f.at] == body
    requires |pieces| == |BEGIN|
    ensures BlockHere(s) == Some(Block(pieces[5], pieces[8], body, 0, n + f.at + f.length))
  {
    hide Match, FindEnd, Join;
  }

  /** What a reader finds at the start of a rule's content, whatever follows it. */
  lemma ReadsBack(r: Rule, post: string)
    requires Readable(r)
    ensures BlockHere(Content(r) + post) == Some(OwnBlock(r))
  {
    hide *;
    ContentSplits(r, post);
    ReadableBegins(r, Content(r) + post);
    EndFollowsBody(r, post);
    var n := |Begin(r)|;
    BlockFrom(Content(r) + post, BeginPieces(r), n, Body(r), Found(|Body(r)|, |END_TEXT|)) by { BeginIsJoined(r); }
    OwnBlockIs(r, n);
  }

  lemma ReadableBegins(r: Rule, s: string)
    requires Readable(r) && Begin(r) <= s
    ensures Match(BEGIN, s) == Some(BeginPieces(r)) && FindEnd(Body(r)).None?
  {
    hide Match, FindEnd, AllIn, Begin, Body;
    BeginFits(r, s);
  }

  lemma BeginIsJoined(r: Rule)
    ensures Begin(r) == Join(BeginPieces(r)) && |BeginPieces(r)| == |BEGIN|
    ensures BeginPieces(r)[5] == r.policyVersion && BeginPieces(r)[8] == r.sha
  {
  }

  lemma OwnBlockIs(r: Rule, n: nat)
    requires n == |Begin(r)|
    ensures OwnBlock(r) == Block(BeginPieces(r)[5], BeginPieces(r)[8], Body(r), 0, n + |Body(r)| + |END_TEXT|)
  {
    ContentSplits(r, "");
    hide Begin, Body;
  }

  /** The first end marker from the body on: the body's own, if any, else the rule's. */
  lemma EndFollowsBody(r: Rule, post: string)
    ensures FindEnd(Body(r) + (END_TEXT + ("\n" + post)))
         == if FindEnd(Body(r)).Some? then FindEnd(Body(r)) else Some(Found(|Body(r)|, |END_TEXT|))
  {
    EndIsFound(post);
    EndTextOpens();
    hide FindEnd, Body;
    FindEndSkips(Body(r), END_TEXT + ("\n" + post));
  }

  lemma ContentSplits(r: Rule, post: string)
    ensures var s, n := Content(r) + post, |Begin(r)|;
      && Begin(r) <= s && s[n..] == Body(r) + (END_TEXT + ("\n" + post)) && s[n..n + |Body(r)|] == Body(r)
      && |Content(r)| == n + |Body(r)| + |END_TEXT| + 1
  {
    hide Begin, Body;
  }

  lemma EndIsFound(post: string)
    ensures FindEnd(END_TEXT + ("\n" + post)) == Some(Found(0, |END_TEXT|))
  {
    EndFits(END_TEXT + ("\n" + post));
    EndTextOpens();
    hide Match;
  }

  lemma EndTextOpens()
    ensures END_TEXT != "" && END_TEXT[0] == '<'
  {
  }

  lemma BeginOpens(r: Rule)
    ensures Begin(r) != "" && Begin(r)[0] == '<'
  {
  }

  /** A rule's content reads back as its own block exactly when the rule is readable. */
  lemma ReadsBackExactly(r: Rule, post: string)
    ensures BlockHere(Content(r) + post) == Some(OwnBlock(r)) <==> Readable(r)
  {
    if Readable(r) {
      ReadsBack(r, post);
    } else if BlockHere(Content(r) + post) == Some(OwnBlock(r)) {
      VersionIsWord(Content(r) + post);
      BodyEndsFirst(r, post);
    }
  }

  lemma VersionIsWord(s: string)
    requires BlockHere(s).Some?
    ensures var v := BlockHere(s).value.version; v != "" && AllIn(v, WordOrDot)
  {
    var pieces := Match(BEGIN, s).value;
    MatchFits(BEGIN, s);
    hide Match, FindEnd;
    FitsEach(BEGIN, s, pieces, 5);
  }

  /** An end marker inside the body ends the block too early. */
  lemma BodyEndsFirst(r: Rule, post: string)
    requires r.policyVersion != "" && AllIn(r.policyVersion, WordOrDot) && FindEnd(Body(r)).Some?
    ensures BlockHere(Content(r) + post) != Some(OwnBlock(r))
  {
    var s, n, f := Content(r) + post, |Begin(r)|, FindEnd(Body(r)).value;
    ContentSplits(r, post);
    BeginFits(r, s);
    hide *;
    EndFollowsBody(r, post);
    BeginIsJoined(r);
    OwnBlockIs(r, n);
    BlockFrom(s, BeginPieces(r), n, s[n..n + f.at], f);
  }

  lemma {:induction false} FitsEach(p: Pattern, s: string, pieces: seq<string>, i: nat)
    requires Fits(p, s, pieces) && i < |p|
    ensures TokenFits(p[i], pieces[i])
    decreases |p|
  {
    if i > 0 { FitsEach(p[1..], s[|pieces[0]|..], pieces[1..], i - 1); }
  }

  // ---------- what surrounds the first block ----------

  lemma {:induction false} NoEndLater(s: string, i: nat)
    requires FindEnd(s).None? && i <= |s|
    ensures FindEnd(s[i..]).None?
  {
    hide Match;
    if i > 0 {
      NoEndLater(s[1..], i - 1);
      assert s[1..][i - 1..] == s[i..];
    } else {
      assert s[0..] == s;
    }
  }

  /** Where a block opens with an earlier begin marker before it, that one would have been a block. */
  lemma NothingOpensHere(a: string, b: string)
    requires a != "" && BlockHere(a + b).None? && BlockHere(b).Some?
    ensures Match(BEGIN, a).None?
  {
    hide *;
    MarkersAreMarkers();
    BlockOpens(b);
    MatchStopsAtOpen(BEGIN, a, b);
    if Match(BEGIN, a).Some? {
      OpenNeedsNoEnd(a + b);
      BlockNeedsEnd(b);
      SameLength(a + b, a);
      var n, m := MatchLength(BEGIN, a), MatchLength(BEGIN, b);
      SliceJoined(a, b, n, m);
      NoEndLater((a + b)[n..], |a| - n + m);
    }
  }

  lemma SameLength(s: string, t: string)
    requires Match(BEGIN, s) == Match(BEGIN, t) && Match(BEGIN, s).Some?
    ensures MatchLength(BEGIN, s) == MatchLength(BEGIN, t)
  {
    hide Match;
  }

  lemma OpenNeedsNoEnd(s: string)
    requires Match(BEGIN, s).Some? && BlockHere(s).None?
    ensures FindEnd(s[MatchLength(BEGIN, s)..]).None?
  {
    hide Match, FindEnd, MatchLength;
  }

  lemma BlockNeedsEnd(s: string)
    requires BlockHere(s).Some?
    ensures Match(BEGIN, s).Some? && FindEnd(s[MatchLength(BEGIN, s)..]).Some?
  {
    hide Match, FindEnd, MatchLength;
  }

  lemma SliceJoined(a: string, b: string, n: nat, m: nat)
    requires n <= |a| && m <= |b|
    ensures (a + b)[n..][|a| - n + m..] == b[m..]
  {
    assert (a + b)[n..] == a[n..] + b;
  }

  lemma BlockOpens(b: string)
    requires BlockHere(b).Some?
    ensures b != "" && b[0] == '<'
  {
    MarkersAreMarkers();
    hide IsMarker;
    MatchOpens(BEGIN, b);
  }

  lemma SliceAgain(s: string, i: nat, k: nat)
    requires 0 < i <= k <= |s|
    ensures s[..k][i..] == s[1..][..k - 1][i - 1..]
  {
    assert s[..k][i..] == s[i..k];
    assert s[1..][..k - 1][i - 1..] == s[i..k];
  }

  /** No begin marker opens in the text before the first block. */
  lemma {:induction false} NothingOpensBefore(s: string)
    requires FindBlock(s).Some?
    ensures NoMatch(BEGIN, s[..FindBlock(s).value.start])
    ensures BlockHere(s[FindBlock(s).value.start..]).Some?
    ensures Shift(BlockHere(s[FindBlock(s).value.start..]).value, FindBlock(s).value.start) == FindBlock(s).value
  {
    hide Match, BlockHere;
    var k := FindBlock(s).value.start;
    if BlockHere(s).Some? {
      assert s[..0] == "" && s[0..] == s;
    } else {
      NothingOpensBefore(s[1..]);
      assert s[1..][k - 1..] == s[k..] && s == s[..k] + s[k..];
      NothingOpensHere(s[..k], s[k..]);
      forall i | 0 <= i < k ensures Match(BEGIN, s[..k][i..]).None? {
        if i == 0 {
          assert s[..k][0..] == s[..k];
        } else {
          assert s[..k][i..] == s[1..][..k - 1][i - 1..] by { SliceAgain(s, i, k); }
        }
      }
    }
  }

  lemma NoBlockBehind(a: string, b: string)
    requires a != "" && (b != "" ==> b[0] == '<') && Match(BEGIN, a).None?
    ensures BlockHere(a + b).None?
  {
    MarkersAreMarkers();
    MatchStopsAtOpen(BEGIN, a, b);
    hide Match, IsMarker, BEGIN;
  }

  lemma NoMatchParts(p: Pattern, a: string)
    requires NoMatch(p, a) && a != ""
    ensures Match(p, a).None? && NoMatch(p, a[1..])
  {
    hide Match;
    assert a[0..] == a;
    forall i | 0 <= i < |a[1..]| ensures Match(p, a[1..][i..]).None? { assert a[1..][i..] == a[i + 1..]; }
  }

  /** Text in which no begin marker opens is passed over. */
  lemma {:induction false} FindBlockSkips(a: string, b: string)
    requires NoMatch(BEGIN, a) && (b != "" ==> b[0] == '<')
    ensures FindBlock(a + b) == match FindBlock(b) case None => None case Some(f) => Some(Shift(f, |a|))
  {
    hide Match, BlockHere, NoMatch, BEGIN;
    if a == "" {
      assert a + b == b;
    } else {
      NoMatchParts(BEGIN, a);
      NoBlockBehind(a, b);
      assert (a + b)[1..] == a[1..] + b;
      FindBlockSkips(a[1..], b);
    }
  }
}
