/**
 What adding, checking and removing a rule do to the text of one rule file.

 The hash is a parameter: any function from bodies to twelve hex digits.
 */
module RuleEdit {
  import opened Wrappers
  import opened RuleText

  datatype Action = Added | Refused | Skipped | Updated

  /** The outcome and the new text; no text means the file is left alone. */
  datatype Edit = Edit(action: Action, text: Option<string>)

  datatype Check =
    | Valid(version: string, sha: string)
    | Diverged(version: string, declaredSha: string, actualSha: string)

  datatype Removal = Untouched | Deleted | Rewritten(text: string)

  function Spliced(s: string, first: Block, r: Rule): string
    requires first.start <= first.end <= |s|
  {
    s[..first.start] + Content(r) + s[first.end..]
  }

  function AddText(existing: Option<string>, r: Rule, force: bool, hash: string -> Sha): Edit {
    match existing
    case None => Edit(Added, Some(Content(r)))
    case Some(s) =>
      var blocks := Blocks(s);
      if blocks == [] then
        if force then Edit(Updated, Some(Content(r))) else Edit(Refused, None)
      else
        var first := blocks[0];
        if hash(first.body) != first.declaredSha then
          if force then Edit(Updated, Some(Content(r))) else Edit(Refused, None)
        else if Begin(r) <= s[first.start..first.end] && first.body == Body(r) then Edit(Skipped, None)
        else Edit(Updated, Some(Spliced(s, first, r)))
  }

  /** The file's first block has the body it declares, so that no one has edited it. */
  predicate Undiverged(s: string, hash: string -> Sha) {
    var first := FindBlock(s);
    first.Some? && hash(first.value.body) == first.value.declaredSha
  }

  /** A file is refused exactly when it has no block, or its first one was edited, and nothing forces the write. */
  lemma RefusedExactly(existing: Option<string>, r: Rule, force: bool, hash: string -> Sha)
    ensures AddText(existing, r, force, hash).action == Refused <==>
      existing.Some? && !force && !Undiverged(existing.value, hash)
    ensures AddText(existing, r, force, hash).action == Refused ==> AddText(existing, r, force, hash).text == None
  {
    hide FindBlock, Content, Begin, Body;
  }

  /** A file that is there is skipped exactly when its first block is unedited and is the rule's own. */
  lemma SkippedExactly(existing: Option<string>, r: Rule, force: bool, hash: string -> Sha)
    ensures AddText(existing, r, force, hash).action == Skipped <==>
      && existing.Some? && Undiverged(existing.value, hash)
      && var first := FindBlock(existing.value).value;
         first.body == Body(r) && Begin(r) <= existing.value[first.start..first.end]
    ensures AddText(existing, r, force, hash).action == Skipped ==> AddText(existing, r, force, hash).text == None
  {
    hide FindBlock, Content, Begin, Body;
  }

  /** An unedited first block is the only part of the file that a write replaces, forced or not. */
  lemma UneditedBlockIsReplaced(s: string, r: Rule, force: bool, hash: string -> Sha)
    requires Undiverged(s, hash) && AddText(Some(s), r, force, hash).text.Some?
    ensures var first, t := FindBlock(s).value, AddText(Some(s), r, force, hash).text.value;
      && AddText(Some(s), r, force, hash).action == Updated
      && |t| == |s| - (first.end - first.start) + |Content(r)|
      && t[..first.start] == s[..first.start] && t[first.start + |Content(r)|..] == s[first.end..]
      && t[first.start..first.start + |Content(r)|] == Content(r)
  {
    hide FindBlock, Content, Begin, Body;
  }

  /** Force replaces an edited or unmanaged file by the rule's own content, and so does a file that is not there. */
  lemma WholeFileIsWritten(existing: Option<string>, r: Rule, force: bool, hash: string -> Sha)
    requires existing.Some? ==> force && !Undiverged(existing.value, hash)
    ensures AddText(existing, r, force, hash) == Edit(if existing.None? then Added else Updated, Some(Content(r)))
  {
    hide FindBlock, Content, Begin, Body;
  }

  function CheckBlock(b: Block, hash: string -> Sha): Check {
    if hash(b.body) == b.declaredSha then Valid(b.version, b.declaredSha)
    else Diverged(b.version, b.declaredSha, hash(b.body))
  }

  function CheckBlocks(bs: seq<Block>, hash: string -> Sha): (r: seq<Check>)
    ensures |r| == |bs| && forall i | 0 <= i < |bs| :: r[i] == CheckBlock(bs[i], hash)
  {
    seq(|bs|, i requires 0 <= i < |bs| => CheckBlock(bs[i], hash))
  }

  /** The verdicts on the blocks of a file, in order. */
  function CheckText(s: string, hash: string -> Sha): seq<Check> {
    CheckBlocks(Blocks(s), hash)
  }

  /** Each block's verdict: valid exactly when its body hashes to what it declares, and else with both hashes. */
  lemma CheckedExactly(s: string, hash: string -> Sha, i: nat)
    requires i < |Blocks(s)|
    ensures |CheckText(s, hash)| == |Blocks(s)|
    ensures var b, check := Blocks(s)[i], CheckText(s, hash)[i];
      && check.version == b.version && (if check.Valid? then check.sha else check.declaredSha) == b.declaredSha
      && (check.Valid? <==> hash(b.body) == b.declaredSha)
      && (check.Diverged? ==> check.actualSha == hash(b.body))
  {
    hide Blocks;
  }

  /** The check as the program does it: one verdict per block. */
  method CheckContent(content: string, hash: string -> Sha) returns (checks: seq<Check>)
    ensures checks == CheckText(content, hash)
  {
    hide FindBlock, Blocks, CheckBlocks;
    var blocks := ExtractBlocks(content);
    checks := [];
    NoChecks(hash);
    for i := 0 to |blocks|
      invariant checks == CheckBlocks(blocks[..i], hash)
    {
      var block := blocks[i];
      var actualSha := hash(block.body);
      assert blocks[..i + 1] == blocks[..i] + [block];
      CheckBlocksThen(blocks[..i], block, hash);
      if actualSha == block.declaredSha {
        checks := checks + [Valid(block.version, block.declaredSha)];
      } else {
        checks := checks + [Diverged(block.version, block.declaredSha, actualSha)];
      }
    }
    assert blocks[..|blocks|] == blocks;
  }

  lemma NoChecks(hash: string -> Sha)
    ensures CheckBlocks([], hash) == []
  {
  }

  lemma CheckBlocksThen(bs: seq<Block>, b: Block, hash: string -> Sha)
    ensures CheckBlocks(bs + [b], hash) == CheckBlocks(bs, hash) + [CheckBlock(b, hash)]
  {
  }

  predicate IsRendered(r: Rule, hash: string -> Sha) { r == RenderRule(r.policyVersion, r.inner, hash) }

  // ---------- the blocks of a written file ----------

  /** Wherever no begin marker opens before it, a readable rule is the first block found. */
  lemma WrittenBlocks(pre: string, r: Rule, post: string)
    requires NoMatch(BEGIN, pre) && Readable(r)
    ensures Blocks(pre + Content(r) + post)
         == [Shift(OwnBlock(r), |pre|)] + ShiftAll(Blocks(post), |pre| + |Content(r)|)
  {
    hide *;
    var t := pre + (Content(r) + post);
    assert pre + Content(r) + post == t;
    ContentOpens(r, post);
    ReadsBack(r, post);
    FindBlockHere(Content(r) + post);
    FindBlockSkips(pre, Content(r) + post);
    OwnBlockEnds(r);
    var b := Shift(OwnBlock(r), |pre|);
    assert b.end == |pre| + |Content(r)| - 1 by { ShiftedEnd(OwnBlock(r), |pre|); }
    assert t[b.end..] == "\n" + post by { TailAfterBlock(pre, r, post); }
    BlocksUnfold(t);
    BlocksAfterNewline(post);
    ShiftTwice(Blocks(post), 1, b.end);
  }

  lemma ContentOpens(r: Rule, post: string)
    ensures Content(r) + post != "" && (Content(r) + post)[0] == '<' && |Content(r)| > 0
  {
    hide Begin, Body;
    BeginOpens(r);
  }

  lemma FindBlockHere(s: string)
    requires BlockHere(s).Some?
    ensures FindBlock(s) == BlockHere(s)
  {
    hide BlockHere;
  }

  lemma OwnBlockEnds(r: Rule)
    ensures OwnBlock(r).start == 0 && OwnBlock(r).end == |Content(r)| - 1
  {
  }

  lemma ShiftedEnd(b: Block, d: nat)
    ensures Shift(b, d).end == b.end + d && Shift(b, d).start == b.start + d
  {
  }

  lemma TailAfterBlock(pre: string, r: Rule, post: string)
    requires |Content(r)| > 0
    ensures (pre + (Content(r) + post))[|pre| + |Content(r)| - 1..] == "\n" + post
  {
    hide Begin, Body;
    var front := Begin(r) + Body(r) + END_TEXT;
    assert Content(r) == front + "\n";
    assert pre + (Content(r) + post) == (pre + front) + ("\n" + post);
  }

  /** A newline in front of a text moves its blocks by one. */
  lemma BlocksAfterNewline(s: string)
    ensures Blocks("\n" + s) == ShiftAll(Blocks(s), 1)
  {
    var t := "\n" + s;
    assert t[1..] == s;
    hide BlockHere;
    if BlockHere(t).Some? { BlockOpens(t); }
    BlocksUnfold(s);
    BlocksUnfold(t);
    if FindBlock(s).Some? {
      var b := FindBlock(s).value;
      assert FindBlock(t) == Some(Shift(b, 1));
      assert t[b.end + 1..] == s[b.end..];
      ShiftTwice(Blocks(s[b.end..]), b.end, 1);
    }
  }

  // ---------- adding ----------

  /**
   An update leaves the text on both sides of the first block as it was, no block opens before
   the new one, and every later block is the one it was, further along.
   */
  lemma UpdateTouchesFirstBlockOnly(s: string, r: Rule)
    requires FindBlock(s).Some? && Readable(r)
    ensures var first := FindBlock(s).value;
      var rest := Blocks(s[first.end..]);
      && Blocks(s) == [first] + ShiftAll(rest, first.end)
      && Blocks(Spliced(s, first, r)) == [Shift(OwnBlock(r), first.start)] + ShiftAll(rest, first.start + |Content(r)|)
  {
    hide *;
    var first := FindBlock(s).value;
    var pre, post := s[..first.start], s[first.end..];
    BlocksUnfold(s);
    assert NoMatch(BEGIN, pre) by { NothingOpensBefore(s); }
    WrittenBlocks(pre, r, post);
    assert Spliced(s, first, r) == pre + Content(r) + post && |pre| == first.start by { SplicedIs(s, first, r); }
  }

  lemma SplicedIs(s: string, first: Block, r: Rule)
    requires first.start <= first.end <= |s|
    ensures Spliced(s, first, r) == s[..first.start] + Content(r) + s[first.end..]
    ensures |s[..first.start]| == first.start
  {
    hide Content;
  }

  /** The new block is found where it was written exactly when the rule is readable. */
  lemma WrittenBlockIsFoundExactly(s: string, r: Rule)
    requires FindBlock(s).Some?
    ensures var first := FindBlock(s).value;
      FindBlock(Spliced(s, first, r)) == Some(Shift(OwnBlock(r), first.start)) <==> Readable(r)
  {
    hide *;
    var first := FindBlock(s).value;
    var pre, post := s[..first.start], s[first.end..];
    assert NoMatch(BEGIN, pre) by { NothingOpensBefore(s); }
    assert Spliced(s, first, r) == pre + (Content(r) + post) && |pre| == first.start by {
      SplicedIs(s, first, r);
      assert pre + Content(r) + post == pre + (Content(r) + post);
    }
    ContentOpens(r, post);
    OwnBlockEnds(r);
    FoundBehind(pre, Content(r) + post, OwnBlock(r));
    ReadsBackExactly(r, post);
  }

  lemma FoundBehind(pre: string, s: string, b: Block)
    requires NoMatch(BEGIN, pre) && s != "" && s[0] == '<' && b.start == 0
    ensures FindBlock(pre + s) == Some(Shift(b, |pre|)) <==> BlockHere(s) == Some(b)
  {
    hide BlockHere, NoMatch, BEGIN;
    FindBlockSkips(pre, s);
    if FindBlock(s).Some? {
      var f := FindBlock(s).value;
      assert Shift(f, |pre|) == Shift(b, |pre|) ==> f == b;
    }
  }

  /** Texts whose first block is a rendered rule's own. */
  ghost predicate Holds(t: string, r: Rule) {
    exists pre, post :: t == pre + Content(r) + post && NoMatch(BEGIN, pre)
  }

  lemma SkippedWhereHeld(pre: string, r: Rule, post: string, force: bool, hash: string -> Sha)
    requires NoMatch(BEGIN, pre) && Readable(r) && IsRendered(r, hash)
    ensures AddText(Some(pre + Content(r) + post), r, force, hash) == Edit(Skipped, None)
  {
    var t := pre + Content(r) + post;
    var first := Shift(OwnBlock(r), |pre|);
    assert Blocks(t) != [] && Blocks(t)[0] == first by {
      hide *;
      WrittenBlocks(pre, r, post);
    }
    assert first.body == Body(r) && first.declaredSha == r.sha && first.start == |pre|;
    assert Begin(r) <= t[first.start..first.end] by {
      hide FindBlock, Blocks, NoMatch, FindEnd;
      BeginLeads(pre, r, post);
    }
    hide Blocks, FindBlock, NoMatch, Readable, Content;
  }

  lemma BeginLeads(pre: string, r: Rule, post: string)
    ensures var t := pre + Content(r) + post;
      |pre| + |Content(r)| - 1 <= |t| && Begin(r) <= t[|pre|..|pre| + |Content(r)| - 1]
  {
    hide Begin, Body;
    var t := pre + Content(r) + post;
    var tail := Body(r) + END_TEXT;
    assert Content(r) == Begin(r) + tail + "\n";
    assert t[|pre|..|pre| + |Content(r)| - 1] == Begin(r) + tail;
  }

  /** A second run with the same rule changes nothing and says so. */
  lemma SecondRunSkips(existing: Option<string>, r: Rule, force: bool, again: bool, hash: string -> Sha)
    requires Readable(r) && IsRendered(r, hash)
    requires AddText(existing, r, force, hash).text.Some?
    ensures AddText(AddText(existing, r, force, hash).text, r, again, hash) == Edit(Skipped, None)
  {
    var t := AddText(existing, r, force, hash).text.value;
    WrittenTextHolds(existing, r, force, hash);
    var pre, post :| t == pre + Content(r) + post && NoMatch(BEGIN, pre);
    hide *;
    SkippedWhereHeld(pre, r, post, again, hash);
  }

  lemma WrittenTextHolds(existing: Option<string>, r: Rule, force: bool, hash: string -> Sha)
    requires AddText(existing, r, force, hash).text.Some?
    ensures Holds(AddText(existing, r, force, hash).text.value, r)
  {
    var t := AddText(existing, r, force, hash).text.value;
    hide Content, NoMatch, Begin, Body, FindBlock, Blocks;
    if t == Content(r) {
      assert t == "" + Content(r) + "";
      assert NoMatch(BEGIN, "") by { NothingInNothing(); }
    } else {
      var s := existing.value;
      var first := Blocks(s)[0];
      NothingOpensBefore(s);
      assert t == s[..first.start] + Content(r) + s[first.end..];
    }
  }

  lemma NothingInNothing()
    ensures NoMatch(BEGIN, "")
  {
  }

  // ---------- checking ----------

  lemma CheckBlocksShifted(bs: seq<Block>, d: nat, hash: string -> Sha)
    ensures CheckBlocks(ShiftAll(bs, d), hash) == CheckBlocks(bs, hash)
  {
  }

  lemma CheckBlocksFirst(b: Block, bs: seq<Block>, hash: string -> Sha)
    ensures CheckBlocks([b] + bs, hash) == [CheckBlock(b, hash)] + CheckBlocks(bs, hash)
  {
  }

  /** After an update the check finds the new block valid and every other block as before. */
  lemma UpdateIsValid(s: string, r: Rule, hash: string -> Sha)
    requires FindBlock(s).Some? && Readable(r) && IsRendered(r, hash)
    ensures var t := Spliced(s, FindBlock(s).value, r);
      CheckText(t, hash) == [Valid(r.policyVersion, r.sha)] + CheckText(s, hash)[1..]
  {
    hide Blocks, FindBlock, Spliced, Content, OwnBlock, Shift, ShiftAll, CheckBlock, CheckBlocks, Readable, IsRendered;
    var first := FindBlock(s).value;
    var rest, own := Blocks(s[first.end..]), Shift(OwnBlock(r), first.start);
    UpdateTouchesFirstBlockOnly(s, r);
    CheckSplits(first, rest, first.end, hash);
    CheckSplits(own, rest, first.start + |Content(r)|, hash);
    OwnBlockIsValid(r, first.start, hash);
  }

  lemma CheckSplits(b: Block, rest: seq<Block>, d: nat, hash: string -> Sha)
    ensures CheckBlocks([b] + ShiftAll(rest, d), hash) == [CheckBlock(b, hash)] + CheckBlocks(rest, hash)
  {
    hide CheckBlock;
    CheckBlocksFirst(b, ShiftAll(rest, d), hash);
    CheckBlocksShifted(rest, d, hash);
  }

  lemma OwnBlockIsValid(r: Rule, d: nat, hash: string -> Sha)
    requires IsRendered(r, hash)
    ensures CheckBlock(Shift(OwnBlock(r), d), hash) == Valid(r.policyVersion, r.sha)
  {
    hide Content;
  }

  /** A freshly written or overwritten file holds one valid block. */
  lemma NewFileIsValid(r: Rule, hash: string -> Sha)
    requires Readable(r) && IsRendered(r, hash)
    ensures CheckText(Content(r), hash) == [Valid(r.policyVersion, r.sha)]
  {
    assert "" + Content(r) + "" == Content(r);
    assert CheckBlock(Shift(OwnBlock(r), 0), hash) == Valid(r.policyVersion, r.sha);
    assert Blocks("") == [];
    hide Blocks, Content, CheckBlock;
    NothingInNothing();
    WrittenBlocks("", r, "");
    CheckBlocksFirst(Shift(OwnBlock(r), 0), [], hash);
    assert ShiftAll([], 0 + |Content(r)|) == [];
    assert Blocks(Content(r)) == [Shift(OwnBlock(r), 0)];
  }

  // ---------- removing ----------

  predicate Blank(s: string) { AllIn(s, Space) }

  predicate Newlines(s: string) { forall i | 0 <= i < |s| :: s[i] == '\n' }

  function WithoutNewlines(s: string): string {
    if s != "" && s[|s| - 1] == '\n' then WithoutNewlines(s[..|s| - 1]) else s
  }

  /** A run of newlines at the end becomes one. */
  function Collapse(s: string): string {
    if s != "" && s[|s| - 1] == '\n' then WithoutNewlines(s) + "\n" else s
  }

  /** The text outside all blocks. */
  function Outside(s: string): string {
    BlocksAreOrdered(s);
    Between(s, Blocks(s), 0)
  }

  function RemoveText(s: string): Removal {
    if Blocks(s) == [] then Untouched
    else if Blank(Outside(s)) then Deleted
    else Rewritten(Collapse(Outside(s)))
  }

  /** The removal as the program does it: cut the blocks from the last to the first, then tidy up. */
  method Remove(content: string) returns (r: Removal)
    ensures r == RemoveText(content)
  {
    hide FindBlock, Ordered, AllIn;
    var blocks := ExtractBlocks(content);
    if blocks == [] { return Untouched; }
    BlocksAreOrdered(content);
    var cleaned := SpliceOut(content, blocks);
    return if Blank(cleaned) then Deleted else Rewritten(Collapse(cleaned));
  }

  lemma {:induction false} WithoutNewlinesExactly(s: string)
    ensures var t := WithoutNewlines(s);
      t <= s && (t == "" || t[|t| - 1] != '\n') && Newlines(s[|t|..])
  {
    if s != "" && s[|s| - 1] == '\n' {
      var front := s[..|s| - 1];
      WithoutNewlinesExactly(front);
      var n := |WithoutNewlines(s)|;
      assert s[n..] == front[n..] + "\n";
    }
  }

  /** Does `t` have the characters of `s`, but one newline for the run of them that `s` ends in? */
  ghost predicate Tidied(s: string, t: string) {
    if s == "" || s[|s| - 1] != '\n' then t == s
    else exists n: nat :: n < |s| && t == s[..n] + "\n" && Newlines(s[n..]) && (n == 0 || s[n - 1] != '\n')
  }

  /**
   A file without blocks is left alone; one with nothing but white space outside them is deleted;
   every other is rewritten as the text outside the blocks, with one newline at the end for several.
   */
  lemma RemovedExactly(s: string)
    ensures RemoveText(s).Untouched? <==> FindBlock(s).None?
    ensures RemoveText(s).Deleted? <==> FindBlock(s).Some? && forall c | c in Outside(s) :: InClass(c, Space)
    ensures RemoveText(s).Rewritten? ==> Tidied(Outside(s), RemoveText(s).text)
  {
    hide FindBlock, Blocks, Outside, InClass, WithoutNewlines;
    var o := Outside(s);
    WithoutNewlinesExactly(o);
    if o != "" && o[|o| - 1] == '\n' {
      var n := |WithoutNewlines(o)|;
      assert o[..n] == WithoutNewlines(o);
      assert n < |o|;
    }
  }

  lemma {:induction false} BetweenShifted(pre: string, s: string, bs: seq<Block>, from: nat)
    requires from <= |s| && Ordered(bs, from, |s|)
    ensures Ordered(ShiftAll(bs, |pre|), |pre| + from, |pre + s|)
    ensures Between(pre + s, ShiftAll(bs, |pre|), |pre| + from) == Between(s, bs, from)
    decreases |bs|
  {
    hide Between, Ordered, ShiftAll;
    var d, shifted := |pre|, ShiftAll(bs, |pre|);
    ShiftKeepsOrder(bs, from, |s|, d);
    BetweenUnfolds(s, bs, from);
    BetweenUnfolds(pre + s, shifted, d + from);
    if bs == [] {
      SliceBehind(pre, s, from, |s|);
    } else {
      BetweenShifted(pre, s, bs[1..], bs[0].end);
      ShiftParts(bs, d);
      SliceBehind(pre, s, from, bs[0].start);
    }
  }

  lemma ShiftParts(bs: seq<Block>, d: nat)
    requires bs != []
    ensures ShiftAll(bs, d) != [] && ShiftAll(bs, d)[1..] == ShiftAll(bs[1..], d)
    ensures ShiftAll(bs, d)[0].start == bs[0].start + d && ShiftAll(bs, d)[0].end == bs[0].end + d
  {
  }

  lemma SliceBehind(pre: string, s: string, i: nat, j: nat)
    requires i <= j <= |s|
    ensures (pre + s)[|pre| + i..|pre| + j] == s[i..j] && (pre + s)[|pre| + i..] == s[i..]
  {
  }

  lemma BetweenUnfolds(s: string, bs: seq<Block>, from: nat)
    requires from <= |s| && Ordered(bs, from, |s|)
    ensures bs != [] ==> from <= bs[0].start < bs[0].end <= |s| && Ordered(bs[1..], bs[0].end, |s|)
    ensures Between(s, bs, from)
         == if bs == [] then s[from..] else s[from..bs[0].start] + Between(s, bs[1..], bs[0].end)
  {
  }

  /** What is outside the blocks of a text that begins with a block after `pre`. */
  lemma OutsideSplits(s: string, pre: string, b: Block, post: string)
    requires Blocks(s) == [b] + ShiftAll(Blocks(post), b.end)
    requires b.start == |pre| <= b.end <= |s| && pre <= s && s[b.end..] == post
    ensures Outside(s) == pre + Outside(post)
  {
    hide *;
    OutsideIs(s);
    OutsideIs(post);
    BetweenSplits(s, b, post, Blocks(post));
    assert s[..b.start] == pre;
  }

  lemma OutsideIs(s: string)
    ensures Ordered(Blocks(s), 0, |s|) && Outside(s) == Between(s, Blocks(s), 0)
  {
    hide Blocks, Between, Ordered;
    BlocksAreOrdered(s);
  }

  lemma BetweenSplits(s: string, b: Block, post: string, bs: seq<Block>)
    requires Ordered([b] + ShiftAll(bs, b.end), 0, |s|) && Ordered(bs, 0, |post|)
    requires b.start <= b.end <= |s| && s[b.end..] == post
    ensures Between(s, [b] + ShiftAll(bs, b.end), 0) == s[..b.start] + Between(post, bs, 0)
  {
    hide *;
    var all := [b] + ShiftAll(bs, b.end);
    BetweenUnfolds(s, all, 0);
    assert all[1..] == ShiftAll(bs, b.end);
    var front := s[..b.end];
    assert s == front + post;
    BetweenShifted(front, post, bs, 0);
    assert s[0..b.start] == s[..b.start];
  }

  /** Removing after an update finds one newline more, where the first block was, than removing before it. */
  lemma UpdateAddsOneNewline(s: string, r: Rule)
    requires FindBlock(s).Some? && Readable(r)
    ensures var first := FindBlock(s).value;
      && Outside(s) == s[..first.start] + Outside(s[first.end..])
      && Outside(Spliced(s, first, r)) == s[..first.start] + "\n" + Outside(s[first.end..])
  {
    var first := FindBlock(s).value;
    var pre, post := s[..first.start], s[first.end..];
    hide Blocks, Between, Content, Readable, Outside;
    UpdateTouchesFirstBlockOnly(s, r);
    OutsideSplits(s, pre, first, post);
    SplicedIs(s, first, r);
    assert NoMatch(BEGIN, pre) by { NothingOpensBefore(s); }
    hide FindBlock, NoMatch;
    OutsideWritten(pre, r, post);
  }

  lemma OutsideWritten(pre: string, r: Rule, post: string)
    requires NoMatch(BEGIN, pre) && Readable(r)
    ensures Outside(pre + Content(r) + post) == pre + "\n" + Outside(post)
  {
    hide *;
    var own, t := Shift(OwnBlock(r), |pre|), pre + (Content(r) + post);
    assert pre + Content(r) + post == t;
    ContentOpens(r, post);
    OwnBlockEnds(r);
    ShiftedEnd(OwnBlock(r), |pre|);
    assert Blocks(t) == [own] + ShiftAll(Blocks("\n" + post), own.end) by {
      WrittenBlocks(pre, r, post);
      BlocksAfterNewline(post);
      ShiftTwice(Blocks(post), 1, own.end);
    }
    assert t[own.end..] == "\n" + post by { TailAfterBlock(pre, r, post); }
    OutsideSplits(t, pre, own, "\n" + post);
    OutsideAfterNewline(post);
    assert pre + ("\n" + Outside(post)) == pre + "\n" + Outside(post);
  }

  lemma OutsideAfterNewline(s: string)
    ensures Outside("\n" + s) == "\n" + Outside(s)
  {
    hide FindBlock, Blocks;
    BlocksAfterNewline(s);
    BlocksAreOrdered(s);
    BlocksAreOrdered("\n" + s);
    BetweenShifted("\n", s, Blocks(s), 0);
    var bs := ShiftAll(Blocks(s), 1);
    var t := "\n" + s;
    if bs != [] {
      assert t[0..bs[0].start] == "\n" + t[1..bs[0].start];
    } else {
      assert t[0..] == "\n" + t[1..];
    }
  }

  /** When two texts that differ in one newline are the same after tidying up. */
  lemma CollapseExactly(a: string, c: string)
    ensures Collapse(a + "\n" + c) == Collapse(a + c)
       <==> Newlines(c) && (c != "" || (a != "" && a[|a| - 1] == '\n'))
  {
    if Newlines(c) {
      StripNewlines(a, c);
      StripNewlines(a, "\n" + c);
      assert a + "\n" + c == a + ("\n" + c);
      if c == "" { assert a + c == a; }
    } else {
      KeepsInner(a, c);
      KeepsInner(a + "\n", c);
    }
  }

  lemma {:induction false} StripNewlines(a: string, c: string)
    requires Newlines(c)
    ensures WithoutNewlines(a + c) == WithoutNewlines(a)
    decreases |c|
  {
    if c == "" {
      assert a + c == a;
    } else {
      assert (a + c)[..|a + c| - 1] == a + c[..|c| - 1];
      StripNewlines(a, c[..|c| - 1]);
    }
  }

  lemma {:induction false} KeepsInner(a: string, c: string)
    requires !Newlines(c)
    ensures |Collapse(a + c)| == |a| + |Collapse(c)|
    ensures |WithoutNewlines(a + c)| == |a| + |WithoutNewlines(c)|
    decreases |c|
  {
    var n := |c| - 1;
    assert (a + c)[|a + c| - 1] == c[n];
    if c[n] == '\n' {
      assert (a + c)[..|a + c| - 1] == a + c[..n];
      assert Newlines(c[..n]) ==> forall i | 0 <= i < n :: c[i] == c[..n][i] == '\n';
      KeepsInner(a, c[..n]);
    }
  }

  /**
   Removing after an update gives the same file as removing before it exactly when only
   whitespace is outside the blocks, or only newlines follow the first block and at least one
   newline stands next to it.
   */
  lemma UpdateThenRemoveExactly(s: string, r: Rule)
    requires FindBlock(s).Some? && Readable(r)
    ensures var first := FindBlock(s).value;
      var pre, rest := s[..first.start], Outside(s[first.end..]);
      RemoveText(Spliced(s, first, r)) == RemoveText(s)
      <==> Blank(pre + rest) || (Newlines(rest) && (rest != "" || (pre != "" && pre[|pre| - 1] == '\n')))
  {
    var first := FindBlock(s).value;
    var pre, rest, t := s[..first.start], Outside(s[first.end..]), Spliced(s, first, r);
    assert Blocks(t) != [] by {
      hide *;
      UpdateTouchesFirstBlockOnly(s, r);
    }
    hide Blocks, FindBlock, Outside, Content, Readable, Spliced, Collapse;
    UpdateAddsOneNewline(s, r);
    assert Blank(pre + "\n" + rest) <==> Blank(pre + rest) by { BlankWithNewline(pre, rest); }
    CollapseExactly(pre, rest);
  }

  lemma BlankWithNewline(a: string, c: string)
    ensures Blank(a + "\n" + c) <==> Blank(a + c)
  {
    assert forall x | x in a + c :: x in a + "\n" + c;
    assert forall x | x in a + "\n" + c :: x in a + c || x == '\n';
  }

  // ---------- versions that cannot be read back ----------

  lemma {:induction false} SpanIs(x: string, rest: string, k: Class)
    requires AllIn(x, k) && (rest != "" ==> !InClass(rest[0], k))
    ensures Span(x + rest, k) == x
  {
    hide InClass;
    if x == "" {
      assert x + rest == rest;
    } else {
      assert x[0] in x && forall c | c in x[1..] :: c in x;
      assert (x + rest)[1..] == x[1..] + rest;
      SpanIs(x[1..], rest, k);
    }
  }

  lemma MatchStep(p: Pattern, x: string, rest: string)
    requires p != [] && Take(p[0], x + rest) == Some(x)
    ensures Match(p, x + rest).Some? <==> Match(p[1..], rest).Some?
  {
    hide Take, TokenFits;
    assert (x + rest)[|x|..] == rest;
  }

  /** A version without spaces that is not all word characters and dots stops the marker. */
  lemma VersionStopsMarker(v: string, rest: string)
    requires (forall c | c in v :: !InClass(c, Space)) && !AllIn(v, WordOrDot)
    ensures Match(BEGIN[5..], v + rest).None?
  {
    assert BEGIN[5..][0] == Run(WordOrDot, 1) && BEGIN[5..][1..] == BEGIN[6..] && BEGIN[6..][0] == Run(Space, 1);
    hide BEGIN, InClass;
    var w := Span(v + rest, WordOrDot);
    if |w| >= |v| {
      forall c | c in v ensures InClass(c, WordOrDot) {
        var i :| 0 <= i < |v| && v[i] == c;
        assert w[i] in w && w[i] == (v + rest)[i];
      }
    }
    assert |w| < |v|;
    var tail := (v + rest)[|w|..];
    assert tail[0] == v[|w|] && v[|w|] in v;
    assert Span(tail, Space) == "";
    assert Match(BEGIN[6..], tail).None?;
  }

  lemma BeginStops(r: Rule, rest: string)
    requires (forall c | c in r.policyVersion :: !InClass(c, Space)) && !AllIn(r.policyVersion, WordOrDot)
    ensures Match(BEGIN, Begin(r) + rest).None?
  {
    var tail := Join(BeginPieces(r)[6..]) + rest;
    var v := r.policyVersion;
    var s5 := v + tail;
    var s4 := "v=" + s5;
    var s3 := " " + s4;
    var s2 := BEGIN_WORD + s3;
    var s1 := " " + s2;
    assert Begin(r) + rest == OPEN + s1 by { BeginText(r); }
    SpanIs(" ", s2, Space);
    SpanIs(" ", s4, Space);
    TakeLiterals(s1, s3, s5);
    TokensAre();
    hide BEGIN, OPEN, BEGIN_WORD, InClass, Match;
    MatchStep(BEGIN, OPEN, s1);
    MatchStep(BEGIN[1..], " ", s2);
    MatchStep(BEGIN[2..], BEGIN_WORD, s3);
    MatchStep(BEGIN[3..], " ", s4);
    MatchStep(BEGIN[4..], "v=", s5);
    VersionStopsMarker(v, tail);
  }

  lemma BeginText(r: Rule)
    ensures Begin(r) == OPEN + (" " + (BEGIN_WORD + (" " + ("v=" + (r.policyVersion + Join(BeginPieces(r)[6..]))))))
  {
    var p := BeginPieces(r);
    forall i | 0 <= i < 6 ensures Join(p[i..]) == p[i] + Join(p[i + 1..]) {
      assert p[i..][1..] == p[i + 1..];
    }
    assert p[0..] == p;
    assert p[0] == OPEN && p[1] == " " && p[2] == BEGIN_WORD && p[3] == " " && p[4] == "v=" && p[5] == r.policyVersion;
    hide Join, BeginPieces, OPEN, BEGIN_WORD;
    assert Join(p[4..]) == "v=" + (r.policyVersion + Join(p[6..]));
    assert Join(p[2..]) == BEGIN_WORD + (" " + Join(p[4..]));
  }

  lemma TakeLiterals(a: string, b: string, c: string)
    ensures OPEN <= OPEN + a && BEGIN_WORD <= BEGIN_WORD + b && "v=" <= "v=" + c
  {
  }

  lemma TokensAre()
    ensures BEGIN[0] == Lit(OPEN) && BEGIN[1..][0] == Run(Space, 0) && BEGIN[2..][0] == Lit(BEGIN_WORD)
    ensures BEGIN[3..][0] == Run(Space, 1) && BEGIN[4..][0] == Lit("v=")
    ensures BEGIN[1..][1..] == BEGIN[2..] && BEGIN[2..][1..] == BEGIN[3..]
    ensures BEGIN[3..][1..] == BEGIN[4..] && BEGIN[4..][1..] == BEGIN[5..]
  {
  }

  lemma {:induction false} NoBlockWithoutOpen(s: string)
    requires '<' !in s
    ensures FindBlock(s).None?
  {
    hide BlockHere;
    if s != "" {
      if BlockHere(s).Some? { BlockOpens(s); }
      NoBlockWithoutOpen(s[1..]);
    }
  }

  lemma {:induction false} JoinHasNoOpen(pieces: seq<string>)
    requires forall i | 0 <= i < |pieces| :: '<' !in pieces[i]
    ensures '<' !in Join(pieces)
  {
    if pieces != [] { JoinHasNoOpen(pieces[1..]); }
  }

  /** The text of a marker opens once when its later pieces do not open. */
  lemma TextOpensOnce(pieces: seq<string>)
    requires pieces != [] && pieces[0] == OPEN && forall i | 0 < i < |pieces| :: '<' !in pieces[i]
    ensures |Join(pieces)| > 0 && '<' !in Join(pieces)[1..]
  {
    JoinHasNoOpen(pieces[1..]);
    assert Join(pieces) == OPEN + Join(pieces[1..]);
    assert Join(pieces)[1..] == OPEN[1..] + Join(pieces[1..]);
  }

  lemma BeginOpensOnce(r: Rule)
    requires '<' !in r.policyVersion
    ensures |Begin(r)| > 0 && '<' !in Begin(r)[1..]
  {
    NoOpenInWords();
    forall c | c in r.sha ensures c != '<' { assert InClass(c, HexDigit); }
    TextOpensOnce(BeginPieces(r));
  }

  lemma EndOpensOnce()
    ensures |END_TEXT| > 0 && '<' !in END_TEXT[1..]
  {
    NoOpenInWords();
    TextOpensOnce(END_PIECES);
  }

  lemma EndIsNoBegin(post: string)
    ensures Match(BEGIN, END_TEXT + post).None?
  {
    var s3 := Join(END_PIECES[3..]) + post;
    var s2 := END_WORD + s3;
    var s1 := " " + s2;
    assert END_TEXT + post == OPEN + s1 by { EndText(); }
    SpanIs(" ", s2, Space);
    TokensAre();
    assert END_WORD[11] == 'e' && BEGIN_WORD[11] == 'b';
    assert Match(BEGIN[2..], s2).None?;
    assert OPEN <= OPEN + s1;
    hide BEGIN, OPEN, BEGIN_WORD, END_WORD, InClass, Match;
    MatchStep(BEGIN, OPEN, s1);
    MatchStep(BEGIN[1..], " ", s2);
  }

  lemma EndText()
    ensures END_TEXT == OPEN + (" " + (END_WORD + Join(END_PIECES[3..])))
  {
    var p := END_PIECES;
    forall i | 0 <= i < 3 ensures Join(p[i..]) == p[i] + Join(p[i + 1..]) {
      assert p[i..][1..] == p[i + 1..];
    }
    assert p[0..] == p;
  }

  lemma EndIsNoBlock(post: string)
    requires '<' !in post
    ensures FindBlock(END_TEXT + post).None?
  {
    var s := END_TEXT + post;
    EndOpensOnce();
    assert s[1..] == END_TEXT[1..] + post;
    assert BlockHere(s).None? by { EndIsNoBegin(post); }
    NoBlockWithoutOpen(s[1..]);
    hide BlockHere;
  }

  lemma NoMatchAfterOpen(p: Pattern, s: string)
    requires IsMarker(p) && s != "" && Match(p, s).None? && '<' !in s[1..]
    ensures NoMatch(p, s)
  {
    hide IsMarker, Match;
    forall i | 0 <= i < |s| ensures Match(p, s[i..]).None? {
      if i == 0 {
        assert s[0..] == s;
      } else if Match(p, s[i..]).Some? {
        MatchOpens(p, s[i..]);
      }
    }
  }

  /**
   A rule whose version has a character outside word characters and dots is written but never
   found again: the next run refuses the file it wrote.
   */
  lemma UnreadableVersionIsLost(r: Rule, hash: string -> Sha)
    requires (forall c | c in r.policyVersion :: !InClass(c, Space) && c != '<') && !AllIn(r.policyVersion, WordOrDot)
    requires '<' !in r.inner
    ensures Blocks(Content(r)) == []
    ensures AddText(AddText(None, r, false, hash).text, r, false, hash) == Edit(Refused, None)
  {
    var front := Begin(r) + Body(r);
    BeginStops(r, Body(r));
    BeginOpensOnce(r);
    MarkersAreMarkers();
    assert front[1..] == Begin(r)[1..] + Body(r);
    assert Content(r) == front + (END_TEXT + "\n");
    assert '<' !in Body(r);
    hide BEGIN, IsMarker, Match, Begin, Body, FindBlock, InClass;
    NoMatchAfterOpen(BEGIN, front);
    EndTextOpens();
    EndIsNoBlock("\n");
    hide NoMatch;
    FindBlockSkips(front, END_TEXT + "\n");
  }

  /** A pre-release version is such a one. */
  lemma HyphenIsLost(inner: string, hash: string -> Sha)
    requires '<' !in inner
    ensures var r := RenderRule("1.0-beta", inner, hash);
      Blocks(Content(r)) == [] && AddText(AddText(None, r, false, hash).text, r, false, hash) == Edit(Refused, None)
  {
    var v := "1.0-beta";
    assert v[3] in v && !InClass(v[3], WordOrDot);
    forall c | c in v ensures !InClass(c, Space) && c != '<' { }
    hide InClass, Content, Blocks;
    UnreadableVersionIsLost(RenderRule(v, inner, hash), hash);
  }
}
