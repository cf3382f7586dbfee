/**
  How the pieces fit together for one workflow file: the walker is run with
  suggestMajorUpgrade as its resolver, and each entry it records is handed to
  the rewriter.
*/
module Bump {
  import opened Wrappers
  import opened Errors
  import Text
  import Resolver
  import Workflow
  import Rewriter

  /**
    The resolver the walker calls: suggestMajorUpgrade with the network and
    version-parsing oracles fixed. A reference without '@' is left alone, and
    any suggestion is a major tag.
  */
  function Resolve(fetch: string -> Resolver.Response, parseMajor: string -> Option<nat>): (resolve: string -> Result<string, Error>)
    ensures forall uses :: '@' !in uses ==> resolve(uses) == Ok("")
    ensures forall uses :: resolve(uses).Ok? && resolve(uses).value != "" ==> |resolve(uses).value| >= 2 && resolve(uses).value[0] == 'v'
  {
    SkipsAllWithoutAt(fetch, parseMajor);
    uses => Resolver.SuggestMajorUpgrade(uses, fetch, parseMajor)
  }

  lemma SkipsAllWithoutAt(fetch: string -> Resolver.Response, parseMajor: string -> Option<nat>)
    ensures forall uses :: '@' !in uses ==> Resolver.SuggestMajorUpgrade(uses, fetch, parseMajor) == Ok("")
  {
    forall uses | '@' !in uses
      ensures Resolver.SuggestMajorUpgrade(uses, fetch, parseMajor) == Ok("")
    {
      Resolver.SkipsWithoutAt(uses, fetch, parseMajor);
    }
  }

  /** The text before the first '@' of a reference contains no '@'. */
  lemma PathHasNoAt(uses: string)
    requires Text.Cut(uses, "@").found
    ensures '@' !in Text.Cut(uses, "@").before
  {
    var path := Text.Cut(uses, "@").before;
    forall k | 0 <= k < |path|
      ensures path[k] != '@'
    {
      Text.OccursAtChar(uses, '@', k);
    }
  }

  /**
    A reference that gets a suggestion contains '@', and what the rewriter
    puts in its place is its own path pinned to the suggested tag; that new
    reference gets no suggestion (upstream unchanged, and the version parser
    reading a bare major tag as that major).
  */
  lemma RewrittenReferenceSettles(uses: string, fetch: string -> Resolver.Response, parseMajor: string -> Option<nat>)
    requires forall n: nat :: parseMajor(Resolver.MajorTag(n)) == Some(n)
    requires Resolver.SuggestMajorUpgrade(uses, fetch, parseMajor).Ok?
    requires Resolver.SuggestMajorUpgrade(uses, fetch, parseMajor).value != ""
    ensures '@' in uses
    ensures var tag := Resolver.SuggestMajorUpgrade(uses, fetch, parseMajor).value;
      && Rewriter.NewReference(uses, tag) == Text.Cut(uses, "@").before + "@" + tag
      && Resolver.SuggestMajorUpgrade(Rewriter.NewReference(uses, tag), fetch, parseMajor) == Ok("")
  {
    var tag := Resolver.SuggestMajorUpgrade(uses, fetch, parseMajor).value;
    var atRef := Text.Cut(uses, "@");
    if !atRef.found {
      Text.IndexCharNone(uses, '@');
      Resolver.SkipsWithoutAt(uses, fetch, parseMajor);
      assert false;
    }
    PathHasNoAt(uses);
    assert uses == atRef.before + "@" + atRef.after;
    Rewriter.NewReferenceKeepsPath(atRef.before, atRef.after, tag);
    Resolver.BumpedReferenceSettles(atRef.before, atRef.after, fetch, parseMajor);
  }

  /**
    Every entry of the map the walker builds with this resolver is a
    reference found in a step, mapped to a major tag; and rewriting it gives
    a reference the tool would leave alone on its next run.
  */
  lemma WalkerEntriesSettle(workflow: map<string, Workflow.Value>, fetch: string -> Resolver.Response,
                            parseMajor: string -> Option<nat>, uses: string)
    requires forall n: nat :: parseMajor(Resolver.MajorTag(n)) == Some(n)
    requires uses in Workflow.Replacements(Workflow.WorkflowUses(workflow), Resolve(fetch, parseMajor))
    ensures uses in Workflow.WorkflowUses(workflow) && uses != "" && '@' in uses
    ensures var tag := Workflow.Replacements(Workflow.WorkflowUses(workflow), Resolve(fetch, parseMajor))[uses];
      && Resolver.SuggestMajorUpgrade(uses, fetch, parseMajor) == Ok(tag)
      && tag[0] == 'v'
      && Resolver.SuggestMajorUpgrade(Rewriter.NewReference(uses, tag), fetch, parseMajor) == Ok("")
  {
    assert Resolve(fetch, parseMajor)(uses) == Resolver.SuggestMajorUpgrade(uses, fetch, parseMajor);
    RewrittenReferenceSettles(uses, fetch, parseMajor);
  }
}
