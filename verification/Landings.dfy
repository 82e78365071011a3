/**
 * When the place of an added member is not inside a comment: always, in a text with no comment
 * opening slash-star-slash; and what an edit does when it is inside one.
 */
module Landings {
  import opened Units
  import opened Trivia
  import opened Syntax
  import opened Nodes
  import opened Editor
  import opened TreeEdits
  import opened Layout
  import opened Appends
  import opened Commutes
  import opened Documents
  import opened JsonEdits

  // ----- Texts in which every edit lands -----

  /** Nowhere in `text` is there a slash, a star and a slash in a row. */
  predicate NoSlashStarSlash(text: Text) {
    forall i :: 0 <= i && i + 2 < |text| && text[i] == SLASH && text[i + 1] == STAR ==> text[i + 2] != SLASH
  }

  lemma {:induction false} CloseShifted(text: Text, at: nat, from: nat)
    requires at <= |text|
    ensures CloseFrom(text, at + from) ==
      match CloseFrom(text[at..], from) case None => None case Some(c) => Some(at + c)
    decreases |text| - at - from
  {
    if at + from + 2 <= |text| && !(text[at + from] == STAR && text[at + from + 1] == SLASH) {
      CloseShifted(text, at, from + 1);
    }
  }

  /** In such a text, where an edit looks for a comment's end is where the parser looks for it. */
  lemma CommentsAgree(text: Text, here: nat)
    requires here <= |text| && NoSlashStarSlash(text) && StartsWith2(text[here..], SLASH, STAR)
    ensures match CloseFrom(text, here)
      case None => FirstPiece(text[here..]) == Unclosed
      case Some(c) => here + 2 <= c && FirstPiece(text[here..]) == Piece(c + 2 - here)
  {
    hide CloseFrom;
    OpensLate(text, here);
    CloseShifted(text, here, 2);
  }

  lemma OpensLate(text: Text, here: nat)
    requires here <= |text| && NoSlashStarSlash(text) && StartsWith2(text[here..], SLASH, STAR)
    ensures CloseFrom(text, here) == CloseFrom(text, here + 2)
  {
    assert text[here] == text[here..][0] && text[here + 1] == text[here..][1];
    assert CloseFrom(text, here) == CloseFrom(text, here + 1);
  }

  lemma {:induction false} IndentSkipped(text: Text, at: nat, end: nat)
    requires at + IndentLen(text, at) <= end <= |text|
    ensures Skip(text[at..end]) == Add(IndentLen(text, at), Skip(text[at + IndentLen(text, at)..end]))
    decreases |text| - at
  {
    hide Skip;
    if IndentLen(text, at) > 0 {
      IndentSkipped(text, at + 1, end);
      var s := text[at..end];
      SkipUnfolds(s);
      assert s[1..] == text[at + 1..end];
      assert FirstPiece(s) == Piece(1);
    }
  }

  /** A line comment cut off before its line feed is trivia. */
  lemma LineCommentSkipped(text: Text, here: nat, end: nat)
    requires here <= end <= |text| && end <= here + Find(text[here..], LF) && StartsWith2(text[here..end], SLASH, SLASH)
    ensures Skip(text[here..end]) == Some((end - here) as nat)
  {
    hide Skip;
    var s := text[here..end];
    assert s == text[here..][..end - here];
    FindNothing(s);
    SkipUnfolds(s);
    assert FirstPiece(s) == Piece(|s|);
    SkipToken(s[|s|..]);
  }

  lemma FindNothing(s: Text)
    requires LF !in s
    ensures Find(s, LF) == |s|
  {
  }

  /** A block comment, and then what follows it, is trivia. */
  lemma CommentSkipped(text: Text, here: nat, next: nat, end: nat)
    requires here <= next <= end <= |text| && FirstPiece(text[here..]) == Piece(next - here)
    ensures Skip(text[here..end]) == Add(next - here, Skip(text[next..end]))
  {
    hide Skip, FirstPiece;
    var s := text[here..end];
    assert s == text[here..][..end - here];
    PieceWithin(text[here..], end - here);
    SkipUnfolds(s);
    assert s[next - here..] == text[next..end];
  }

  /** In such a text, whatever is stepped over on the way to a line's end is whole trivia. */
  lemma {:induction false} LineIsTrivia(text: Text, from: nat, at: nat)
    requires from <= at <= |text| && NoSlashStarSlash(text) && (at > 0 ==> text[at - 1] != CR)
    ensures var end := TriviaLineEnd(text, from, at);
      end == from || (at <= end && Skip(text[at..end]) == Some((end - at) as nat))
    decreases |text| - at
  {
    hide CloseFrom, Find, LineStop, IndentLen, Skip, FirstPiece, NoSlashStarSlash, TriviaLineEnd;
    var here := at + IndentLen(text, at);
    var end := TriviaLineEnd(text, from, at);
    TriviaTurn(text, from, at);
    BeforeIndent(text, at);
    if StartsWith2(text[here..], SLASH, SLASH) {
      LineCommentEnds(text, from, here);
    } else if StartsWith2(text[here..], SLASH, STAR) {
      CommentsAgree(text, here);
      if CloseFrom(text, here).Some? {
        var next := CloseFrom(text, here).value + 2;
        if end != from {
          LineIsTrivia(text, from, next);
          CommentSkipped(text, here, next, end);
        }
      }
    } else {
      StopHere(text, from, here);
    }
    if end != from { IndentSkipped(text, at, end); }
  }

  lemma TriviaTurn(text: Text, from: nat, at: nat)
    requires from <= at <= |text|
    ensures var here, end := at + IndentLen(text, at), TriviaLineEnd(text, from, at);
      && (StartsWith2(text[here..], SLASH, SLASH) ==>
            var newline := here + Find(text[here..], LF);
            end == if newline == |text| then from else LineStop(text, from, newline))
      && (StartsWith2(text[here..], SLASH, STAR) ==>
            var close := CloseFrom(text, here);
            end == if close.None? || LF in text[here..close.value] then from else TriviaLineEnd(text, from, close.value + 2))
      && (!StartsWith2(text[here..], SLASH, SLASH) && !StartsWith2(text[here..], SLASH, STAR) ==>
            end == LineStop(text, from, here))
  {
    hide CloseFrom, Find, LineStop, IndentLen;
  }

  lemma LineCommentEnds(text: Text, from: nat, here: nat)
    requires from <= here <= |text| && StartsWith2(text[here..], SLASH, SLASH)
    ensures var newline := here + Find(text[here..], LF);
      newline < |text| ==>
        var end := LineStop(text, from, newline);
        end == from || (here <= end && Skip(text[here..end]) == Some((end - here) as nat))
  {
    hide Find, LineStop, Skip;
    var newline := here + Find(text[here..], LF);
    if newline < |text| {
      StopInComment(text, from, here, newline);
      var end := LineStop(text, from, newline);
      if end != from { LineCommentSkipped(text, here, end); }
    }
  }

  lemma BeforeIndent(text: Text, at: nat)
    requires at <= |text| && (at > 0 ==> text[at - 1] != CR)
    ensures var here := at + IndentLen(text, at);
      here <= |text| && (here > 0 ==> text[here - 1] != CR)
  {
    if IndentLen(text, at) > 0 {
      IndentLenIsIndent(text, at, at + IndentLen(text, at) - 1);
    }
  }

  lemma StopInComment(text: Text, from: nat, here: nat, newline: nat)
    requires from <= here <= |text| && StartsWith2(text[here..], SLASH, SLASH) && newline == here + Find(text[here..], LF) < |text|
    ensures here + 2 <= LineStop(text, from, newline) <= newline || LineStop(text, from, newline) == from
  {
    assert text[newline] == text[here..][newline - here] == LF;
    assert text[here] == text[here..][0] && text[here + 1] == text[here..][1];
  }

  lemma StopHere(text: Text, from: nat, here: nat)
    requires from <= here <= |text| && (here > 0 ==> text[here - 1] != CR)
    ensures LineStop(text, from, here) == from || LineStop(text, from, here) == here
    ensures Skip(text[here..here]) == Some(0)
  {
  }

  lemma ObjectIsClear(pre: Text, head: Text, es: Elems, post: Text)
    requires es.More? && Formed(Branch(true, head, es)) && NoSlashStarSlash(pre + Show(Branch(true, head, es)) + post)
    ensures Clear(pre + Show(Branch(true, head, es)) + post, NodeOf(Branch(true, head, es), |pre|))
  {
    hide Show, Formed, NodeOf, Skip, IsInline, TriviaLineEnd, UpToTrivia, NoSlashStarSlash, IsGap, Anchor, Clear;
    var tree := Branch(true, head, es);
    var text, node := pre + Show(tree) + post, NodeOf(tree, |pre|);
    AnchorIs(pre, head, es);
    ObjectText(pre, head, es, post);
    LastFormed(head, es);
    UpToTriviaEnds(pre, head, es);
    var p := UpToTrivia(pre, head, es);
    assert text[|p| - 1] == p[|p| - 1];
    LineIsTrivia(text, |p|, |p|);
    ClearIf(text, node, |p|);
  }

  lemma ClearIf(text: Text, node: Node, anchor: nat)
    requires node.members.Some? && node.members.value != [] && Anchor(node) == anchor <= |text|
    requires var end := TriviaLineEnd(text, anchor, anchor);
      end == anchor || (anchor <= end && Skip(text[anchor..end]) == Some((end - anchor) as nat))
    ensures Clear(text, node)
  {
    hide Anchor, TriviaLineEnd, IsInline, Skip;
    NothingSkipped();
  }

  lemma NothingSkipped()
    ensures Skip([]) == Some(0)
  {
  }

  lemma {:induction false} AlwaysClear(pre: Text, tree: Tree, post: Text, path: seq<Text>)
    requires Formed(tree) && NoSlashStarSlash(pre + Show(tree) + post)
    ensures ClearAlong(pre + Show(tree) + post, NodeOf(tree, |pre|), path)
    decreases |path|
  {
    hide Show, Formed, NodeOf, Clear, IndexOf, KeyOf, Matching, NoSlashStarSlash;
    if path != [] && tree.Branch? && tree.braces {
      var es, key := tree.elems, path[0];
      MatchingOf(tree, |pre|, key);
      if Times(es, key) == 0 {
        if es.More? { ObjectIsClear(pre, tree.head, es, post); }
      } else if Times(es, key) == 1 {
        FoundAt(tree, pre, key);
        var i := IndexOf(es, key);
        ValueInPlace(pre, tree.head, es, i, post);
        BranchFormed(tree.head, es);
        InnerFormed(es, i, |BeforeValue(pre, tree.head, es, i)|);
        AlwaysClear(BeforeValue(pre, tree.head, es, i), ElemAt(es, i).value, AfterValue(es, i, post), path[1..]);
      }
    } else {
      NotObject(tree, |pre|);
    }
  }

  lemma NotObject(tree: Tree, at: nat)
    ensures NodeOf(tree, at).members.None? <==> !(tree.Branch? && tree.braces)
  {
  }

  /** In a text with no slash-star-slash, every edit lands. */
  lemma AlwaysLands(text: Text, path: seq<Text>)
    requires NoSlashStarSlash(text)
    ensures Lands(text, path)
  {
    hide Show, Formed, NodeOf, ReadDocument, ClearAlong, NoSlashStarSlash;
    if ReadDocument(text).Some? {
      var d := ReadDocument(text).value;
      DocumentIs(text, d);
      var p, e := text[..d.start], text[d.start + |Show(d.tree)|..];
      AlwaysClear(p, d.tree, e, path);
    }
  }
}
