/** The canonical redaction string of internal/controller/redaction.go: the union of a
    sink's floor and a rule's additions, sorted, deduplicated, newline-separated. */
module Redaction {
  import opened Strings

  datatype RedactionRule = RedactionRule(annotation: string, fieldPath: string)

  /** The data plane's rendering of an annotation key as a path; nothing here depends on
      it beyond its being a function of the key. */
  type AnnotationPath = string -> string

  function RedactionPath(rule: RedactionRule, render: AnnotationPath): string {
    if rule.annotation != "" then render(rule.annotation) else rule.fieldPath
  }

  function Rendered(rules: seq<RedactionRule>, render: AnnotationPath): seq<string> {
    if rules == [] then []
    else
      var path := RedactionPath(rules[|rules| - 1], render);
      Rendered(rules[..|rules| - 1], render) + if path != "" then [path] else []
  }

  /** The non-empty paths both policies render to, as a set. */
  ghost function Paths(sinkFloor: seq<RedactionRule>, ruleExtra: seq<RedactionRule>, render: AnnotationPath)
    : set<string>
  {
    set rule | rule in sinkFloor + ruleExtra && RedactionPath(rule, render) != "" :: RedactionPath(rule, render)
  }

  function Canonical(sinkFloor: seq<RedactionRule>, ruleExtra: seq<RedactionRule>, render: AnnotationPath): string {
    Join(Compact(Sort(Rendered(sinkFloor + ruleExtra, render))), '\n')
  }

  method CanonicalRedaction(sinkFloor: seq<RedactionRule>, ruleExtra: seq<RedactionRule>, render: AnnotationPath)
    returns (canonical: string)
    ensures canonical == Canonical(sinkFloor, ruleExtra, render)
  {
    var paths := RenderAll(sinkFloor + ruleExtra, render);
    return Join(Compact(Sort(paths)), '\n');
  }

  method RenderAll(rules: seq<RedactionRule>, render: AnnotationPath) returns (paths: seq<string>)
    ensures paths == Rendered(rules, render)
  {
    paths := [];
    var i := 0;
    while i < |rules|
      invariant 0 <= i <= |rules|
      invariant paths == Rendered(rules[..i], render)
    {
      var path := RedactionPath(rules[i], render);
      assert rules[..i + 1][..i] == rules[..i];
      if path != "" {
        paths := paths + [path];
      }
      i := i + 1;
    }
    assert rules[..i] == rules;
  }

  lemma {:induction false} RenderedElements(rules: seq<RedactionRule>, render: AnnotationPath)
    ensures Elements(Rendered(rules, render))
            == set rule | rule in rules && RedactionPath(rule, render) != "" :: RedactionPath(rule, render)
  {
    if rules != [] {
      var init, last := rules[..|rules| - 1], rules[|rules| - 1];
      RenderedElements(init, render);
      assert rules == init + [last];
      var path := RedactionPath(last, render);
      var tail := if path != "" then [path] else [];
      assert Elements(Rendered(init, render) + tail) == Elements(Rendered(init, render)) + Elements(tail);
    }
  }

  /** The path set, rule by rule: an annotation stands for its rendering and hides the rule's
      field path; empty paths are nobody's. */
  lemma PathsAre(sinkFloor: seq<RedactionRule>, ruleExtra: seq<RedactionRule>, render: AnnotationPath, path: string)
    ensures path in Paths(sinkFloor, ruleExtra, render) <==>
            && path != ""
            && exists rule | rule in sinkFloor || rule in ruleExtra ::
                 if rule.annotation != "" then path == render(rule.annotation) else path == rule.fieldPath
  {
    assert forall rule :: rule in sinkFloor + ruleExtra <==> rule in sinkFloor || rule in ruleExtra;
  }

  /** What the canonical list is: the one strictly sorted listing of the path set. */
  lemma CanonicalListing(sinkFloor: seq<RedactionRule>, ruleExtra: seq<RedactionRule>, render: AnnotationPath)
    returns (listing: seq<string>)
    ensures StrictlySorted(listing) && Elements(listing) == Paths(sinkFloor, ruleExtra, render)
    ensures Canonical(sinkFloor, ruleExtra, render) == Join(listing, '\n')
  {
    var rendered := Rendered(sinkFloor + ruleExtra, render);
    RenderedElements(sinkFloor + ruleExtra, render);
    SortSorts(rendered);
    SortKeepsElements(rendered);
    CompactOfSorted(Sort(rendered));
    listing := Compact(Sort(rendered));
  }

  ghost predicate NewlineFree(paths: set<string>) {
    forall path | path in paths :: '\n' !in path
  }

  /** The string reads back as the listing it was made of, and an empty string means no path. */
  lemma CanonicalReadsBack(sinkFloor: seq<RedactionRule>, ruleExtra: seq<RedactionRule>, render: AnnotationPath)
    returns (listing: seq<string>)
    requires NewlineFree(Paths(sinkFloor, ruleExtra, render))
    ensures StrictlySorted(listing) && Elements(listing) == Paths(sinkFloor, ruleExtra, render)
    ensures var canonical := Canonical(sinkFloor, ruleExtra, render);
            if canonical == "" then listing == [] else Split(canonical, '\n') == listing
  {
    listing := CanonicalListing(sinkFloor, ruleExtra, render);
    if listing != [] {
      assert forall part | part in listing :: part in Elements(listing);
      SplitJoin(listing, '\n');
      assert Split("", '\n') == [""];
      assert "" in listing ==> "" in Elements(listing);
    }
  }

  /** Two policies look the same exactly when they scrub the same paths: reordering and
      repetition never show, and no path of the sink's floor can be lost. */
  lemma SameStringIffSamePaths(
    floorA: seq<RedactionRule>, extraA: seq<RedactionRule>, floorB: seq<RedactionRule>, extraB: seq<RedactionRule>,
    render: AnnotationPath)
    requires NewlineFree(Paths(floorA, extraA, render)) && NewlineFree(Paths(floorB, extraB, render))
    ensures Canonical(floorA, extraA, render) == Canonical(floorB, extraB, render)
            <==> Paths(floorA, extraA, render) == Paths(floorB, extraB, render)
  {
    var a := CanonicalReadsBack(floorA, extraA, render);
    var b := CanonicalReadsBack(floorB, extraB, render);
    if Paths(floorA, extraA, render) == Paths(floorB, extraB, render) {
      var c := CanonicalListing(floorA, extraA, render);
      var d := CanonicalListing(floorB, extraB, render);
      StrictlySortedIsUnique(c, d);
    }
  }

  /** The string names this listing of the policy's paths. */
  ghost predicate Lists(
    listing: seq<string>, sinkFloor: seq<RedactionRule>, ruleExtra: seq<RedactionRule>, render: AnnotationPath)
  {
    StrictlySorted(listing) && Elements(listing) == Paths(sinkFloor, ruleExtra, render)
  }

  /** For every pair of policies, newlines or not: they share a string exactly when their
      sorted paths, cut at newlines, are the same lines. */
  lemma SameStringIffSameLines(
    floorA: seq<RedactionRule>, extraA: seq<RedactionRule>, floorB: seq<RedactionRule>, extraB: seq<RedactionRule>,
    a: seq<string>, b: seq<string>, render: AnnotationPath)
    requires Lists(a, floorA, extraA, render) && Lists(b, floorB, extraB, render)
    ensures Canonical(floorA, extraA, render) == Canonical(floorB, extraB, render)
            <==> Pieces(a, '\n') == Pieces(b, '\n')
  {
    LinesOf(floorA, extraA, a, render);
    LinesOf(floorB, extraB, b, render);
    JoinSplit(Canonical(floorA, extraA, render), '\n');
    JoinSplit(Canonical(floorB, extraB, render), '\n');
  }

  lemma LinesOf(
    sinkFloor: seq<RedactionRule>, ruleExtra: seq<RedactionRule>, listing: seq<string>, render: AnnotationPath)
    requires Lists(listing, sinkFloor, ruleExtra, render)
    ensures var canonical := Canonical(sinkFloor, ruleExtra, render);
            Pieces(listing, '\n') == if canonical == "" then [] else Split(canonical, '\n')
  {
    ListedAs(sinkFloor, ruleExtra, listing, render);
    if listing != [] {
      assert listing[0] in Elements(listing) && listing[0] != "";
      SplitOfJoin(listing, '\n');
    }
  }

  /** The newline condition is needed: a path holding one cannot be told from two paths. */
  lemma NewlineMakesItAmbiguous(a: string, b: string, render: AnnotationPath)
    requires a != "" && b != "" && Less(a, b)
    ensures var one, two := [RedactionRule("", a + ['\n'] + b)], [RedactionRule("", a), RedactionRule("", b)];
            && Canonical(one, [], render) == Canonical(two, [], render)
            && Paths(one, [], render) != Paths(two, [], render)
  {
    var joined := a + ['\n'] + b;
    var one, two := [RedactionRule("", joined)], [RedactionRule("", a), RedactionRule("", b)];
    PathsOf(one, [joined], render);
    PathsOf(two, [a, b], render);
    ListedAs(one, [], [joined], render);
    ListedAs(two, [], [a, b], render);
    assert [a, b][1..] == [b];
    assert |joined| > |a| && a in Elements([a, b]) && a !in Elements([joined]);
  }

  lemma ListedAs(
    sinkFloor: seq<RedactionRule>, ruleExtra: seq<RedactionRule>, listing: seq<string>, render: AnnotationPath)
    requires Lists(listing, sinkFloor, ruleExtra, render)
    ensures Canonical(sinkFloor, ruleExtra, render) == Join(listing, '\n')
  {
    var sorted := CanonicalListing(sinkFloor, ruleExtra, render);
    StrictlySortedIsUnique(sorted, listing);
  }

  lemma PathsOf(rules: seq<RedactionRule>, paths: seq<string>, render: AnnotationPath)
    requires |paths| == |rules| && "" !in paths
    requires forall i | 0 <= i < |rules| :: RedactionPath(rules[i], render) == paths[i]
    ensures Paths(rules, [], render) == Elements(paths)
  {
    assert rules + [] == rules;
    forall i | 0 <= i < |rules|
      ensures paths[i] in Paths(rules, [], render)
    {
      assert rules[i] in rules;
    }
  }
}
