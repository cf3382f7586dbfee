/**
  The rewriter: the text transformation of applyReplacements. For each entry
  `uses -> tag` of the replacement map, every literal occurrence of `uses` in
  the file text becomes the path of `uses` (the text before its first '@')
  followed by '@' and the tag. This is plain substring replacement over the
  whole text, not an edit of the parsed document.
*/
module Rewriter {
  import opened Wrappers
  import Text

  /** The reference an entry `uses -> tag` rewrites to: the path of `uses`, '@', then the tag. */
  function NewReference(uses: string, tag: string): (r: string)
    ensures Text.HasSuffix(r, "@" + tag)
    ensures Text.HasPrefix(uses, r[..|r| - |tag| - 1])
    ensures '@' !in uses ==> r == uses + "@" + tag
  {
    var path := Text.Cut(uses, "@").before;
    assert '@' !in uses ==> path == uses by {
      if '@' !in uses {
        Text.CutMissing(uses, '@');
      }
    }
    var r := path + "@" + tag;
    assert r[..|r| - |tag| - 1] == path;
    r
  }

  /** The rewritten reference keeps the action path and swaps the ref for the tag. */
  lemma NewReferenceKeepsPath(path: string, ref: string, tag: string)
    requires '@' !in path
    ensures NewReference(path + "@" + ref, tag) == path + "@" + tag
  {
    Text.CutAtFirst(path, '@', ref);
  }

  /** One entry of the map applied to the text (one round of the loop). */
  function RewriteOne(text: string, uses: string, tag: string): (r: string)
    ensures uses != "" && Text.Index(text, uses).None? ==> r == text
  {
    Text.ReplaceAll(text, uses, NewReference(uses, tag))
  }

  /**
    What one entry does to the text: cut the text at the left-to-right,
    non-overlapping occurrences of `uses`; the rewritten text is the same
    pieces, in the same order, joined by the new reference instead. No piece
    contains `uses`, so every occurrence is replaced and every other
    character is kept.
  */
  lemma RewriteOneKeepsPieces(text: string, uses: string, tag: string)
    requires uses != ""
    ensures Text.Join(Text.Split(text, uses), uses) == text
    ensures RewriteOne(text, uses, tag) == Text.Join(Text.Split(text, uses), NewReference(uses, tag))
    ensures forall piece :: piece in Text.Split(text, uses) ==> Text.Index(piece, uses).None?
  {
    Text.ReplaceAllIsSplitJoin(text, uses, NewReference(uses, tag));
    Text.SplitPiecesFree(text, uses);
  }

  /**
    The replacement is literal: a reference that merely starts with `uses`
    (such as `a/b@v10` for the entry `a/b@v1`) is rewritten as well, its
    remaining characters left after the new tag.
  */
  lemma LongerReferenceAlsoRewritten(uses: string, rest: string, tag: string)
    requires uses != ""
    requires Text.Index(rest, uses).None?
    ensures RewriteOne(uses + rest, uses, tag) == NewReference(uses, tag) + rest
  {
    var s := uses + rest;
    assert s[0..|uses|] == uses;
    Text.IndexIsLeftmost(s, uses, 0);
    assert s[|uses|..] == rest;
  }

  /** The text after the entries of `order` have been applied one after the other. */
  function ApplyInOrder(text: string, order: seq<string>, replacements: map<string, string>): string
    requires forall k :: k in order ==> k in replacements
  {
    if order == [] then text
    else
      var last := order[|order| - 1];
      RewriteOne(ApplyInOrder(text, order[..|order| - 1], replacements), last, replacements[last])
  }

  /** `order` lists every key of `keys` exactly once. */
  predicate Enumerates(order: seq<string>, keys: set<string>)
  {
    && (forall k :: k in order ==> k in keys)
    && (forall k :: k in keys ==> k in order)
    && (forall i, j :: 0 <= i < j < |order| ==> order[i] != order[j])
  }

  /** Whatever the order, entries none of which occurs in the text leave it as it was. */
  lemma {:induction false} ApplyWithoutOccurrences(text: string, order: seq<string>, replacements: map<string, string>)
    requires forall k :: k in order ==> k in replacements && k != "" && Text.Index(text, k).None?
    ensures ApplyInOrder(text, order, replacements) == text
    decreases |order|
  {
    if order != [] {
      var front := order[..|order| - 1];
      assert forall k :: k in front ==> k in order;
      ApplyWithoutOccurrences(text, front, replacements);
    }
  }

  /**
    applyReplacements without the file write. An empty map writes nothing.
    Otherwise the entries are applied one at a time, in the map's (arbitrary)
    iteration order, which `order` records; the text written is the result.
  */
  method ApplyReplacements(data: string, replacements: map<string, string>)
    returns (written: Option<string>, ghost order: seq<string>)
    ensures written.None? <==> |replacements| == 0
    ensures written.Some? ==> Enumerates(order, replacements.Keys)
    ensures written.Some? ==> written.value == ApplyInOrder(data, order, replacements)
    ensures |replacements| == 1 ==>
      forall uses :: uses in replacements ==> written == Some(RewriteOne(data, uses, replacements[uses]))
    ensures (forall k :: k in replacements ==> k != "" && Text.Index(data, k).None?)
      ==> written == if |replacements| == 0 then None else Some(data)
  {
    order := [];
    if |replacements| == 0 {
      return None, order;
    }
    var dataSt := data;
    var pending := replacements.Keys;
    while pending != {}
      invariant pending <= replacements.Keys
      invariant forall k :: k in order <==> k in replacements.Keys - pending
      invariant forall i, j :: 0 <= i < j < |order| ==> order[i] != order[j]
      invariant |order| + |pending| == |replacements.Keys|
      invariant dataSt == ApplyInOrder(data, order, replacements)
      decreases pending
    {
      var uses :| uses in pending;
      var tag := replacements[uses];
      var workflowPath := Text.Cut(uses, "@").before;
      var newFull := workflowPath + "@" + tag;
      dataSt := Text.ReplaceAll(dataSt, uses, newFull);
      ghost var done := order;
      assert uses !in done;
      order := order + [uses];
      assert order[..|order| - 1] == done;
      pending := pending - {uses};
    }
    written := Some(dataSt);
    if forall k :: k in replacements ==> k != "" && Text.Index(data, k).None? {
      ApplyWithoutOccurrences(data, order, replacements);
    }
    if |replacements| == 1 {
      SingleEntryOrder(order, replacements);
    }
  }

  /** With a single entry, the only enumeration is that entry alone. */
  lemma SingleEntryOrder(order: seq<string>, replacements: map<string, string>)
    requires |replacements| == 1 && |order| == |replacements.Keys|
    requires forall k :: k in order ==> k in replacements
    ensures forall uses :: uses in replacements ==> order == [uses]
  {
    assert |replacements.Keys| == 1;
    forall uses | uses in replacements
      ensures order == [uses]
    {
      var k := order[0];
      assert k in replacements;
      assert |replacements.Keys - {uses}| == 0;
      assert k !in replacements.Keys - {uses};
      assert k == uses;
    }
  }
}
