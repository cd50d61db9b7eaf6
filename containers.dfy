/**
  What editing one container of a task definition does, stated as pure
  functions over the decoded document: the image retag, the visit of one
  container definition, the walk over all of them in order, and the edit of
  the whole document. The imperative edit in module TaskDefinition is proved
  to do exactly this; the lemmas here state what it means.
*/
module Containers {
  import opened Strings
  import opened Errors
  import opened Document
  import opened Environment

  const ContainerDefinitionsKey := "containerDefinitions"
  const NameKey := "name"
  const ImageKey := "image"
  const LogConfigurationKey := "logConfiguration"
  const OptionsKey := "options"
  const DdTagsKey := "dd_tags"
  const EnvironmentKey := "environment"

  /** The requested edit: which container, the new image tag ("" for none), the monitoring tags and the environment. */
  datatype Edit = Edit(containerName: string, containerTag: string, ddTags: seq<string>, env: seq<EnvVar>)

  // ---------------------------------------------------------------------------
  // Image tag

  /**
    The image name with its tag replaced: the text before the first ':',
    then ':' and the new tag. A name with more than one ':' is rejected.
  */
  function Retag(image: string, tag: string): (r: Result<string>)
    ensures r.Success? <==> Count(image, ':') <= 1
    ensures r.Failure? ==> r.error == TooManyColons(image)
  {
    var parts := Split(image, ':');
    if |parts| > 2 then Failure(TooManyColons(image)) else Success(parts[0] + ":" + tag)
  }

  /** An image without a tag gains ":" and the tag. */
  lemma RetagAppendsTag(image: string, tag: string)
    requires ':' !in image
    ensures Retag(image, tag) == Success(image + ":" + tag)
  {
    SplitWithoutSeparator(image, ':');
  }

  /** An image "repo:oldTag" becomes "repo:tag". */
  lemma RetagReplacesTag(repo: string, oldTag: string, tag: string)
    requires ':' !in repo && ':' !in oldTag
    ensures Retag(repo + ":" + oldTag, tag) == Success(repo + ":" + tag)
  {
    SplitPair(repo, oldTag, ':');
  }

  /**
    Retagging twice with the same tag is retagging once, for an image with at
    most one ':' and a tag without one.
  */
  lemma RetagIdempotent(image: string, tag: string)
    requires Count(image, ':') <= 1 && ':' !in tag
    ensures Retag(image, tag).Success?
    ensures Retag(Retag(image, tag).value, tag) == Retag(image, tag)
  {
    var repo := Split(image, ':')[0];
    RetagReplacesTag(repo, tag, tag);
  }

  /** A tag that itself holds ':' makes the retagged image unacceptable to a second retag. */
  lemma RetagWithColonTagNotRepeatable(image: string, tag: string)
    requires Count(image, ':') <= 1 && ':' in tag
    ensures Retag(image, tag).Success?
    ensures Retag(Retag(image, tag).value, tag).Failure?
  {
    var repo := Split(image, ':')[0];
    CountAppend(repo + ":", tag, ':');
    CountAppend(repo, ":", ':');
  }

  // ---------------------------------------------------------------------------
  // One container definition

  /** The state of one container definition after it was visited, and the error that stopped the visit, if any. */
  datatype Visited = Visited(el: JVal, err: Option<Error>)

  /**
    Step one for a matching definition: replace the image tag when a tag was
    requested. Without a tag the image is not even read; a failure leaves the
    definition as it was.
  */
  function RewriteImage(el: JVal, title: Title, tag: string): (v: Visited)
    ensures tag == "" ==> v == Visited(el, None)
    ensures tag != "" && !HasString(el, ImageKey) ==> v == Visited(el, Some(ExtractString(el, ImageKey, title).error))
    ensures tag != "" && HasString(el, ImageKey) && Count(el.obj[ImageKey].str, ':') > 1 ==>
              v == Visited(el, Some(TooManyColons(el.obj[ImageKey].str)))
    ensures tag != "" && HasString(el, ImageKey) && Count(el.obj[ImageKey].str, ':') <= 1 ==>
              v == Visited(SetField(el, ImageKey, JStr(Retag(el.obj[ImageKey].str, tag).value)), None)
  {
    if tag == "" then Visited(el, None)
    else match ExtractString(el, ImageKey, title)
      case Failure(e) => Visited(el, Some(e))
      case Success(image) =>
        match Retag(image, tag)
        case Failure(e) => Visited(el, Some(e))
        case Success(retagged) => Visited(SetField(el, ImageKey, JStr(retagged)), None)
  }

  /**
    Step two for a matching definition: set logConfiguration.options.dd_tags
    to the comma-joined tags, then replace environment.
  */
  function PatchLogging(el: JVal, title: Title, edit: Edit): (v: Visited)
    ensures v.err.None? <==> HasMap(el, LogConfigurationKey) && HasMap(el.obj[LogConfigurationKey], OptionsKey)
    ensures !HasMap(el, LogConfigurationKey) ==>
              v == Visited(el, Some(ExtractMap(el, LogConfigurationKey, title).error))
    ensures HasMap(el, LogConfigurationKey) && !HasMap(el.obj[LogConfigurationKey], OptionsKey) ==>
              v == Visited(el, Some(ExtractMap(el.obj[LogConfigurationKey], OptionsKey, title).error))
    ensures v.err.None? ==>
              && HasMap(v.el, LogConfigurationKey)
              && HasMap(v.el.obj[LogConfigurationKey], OptionsKey)
              && DdTagsKey in v.el.obj[LogConfigurationKey].obj[OptionsKey].obj
              && v.el.obj[LogConfigurationKey].obj[OptionsKey].obj[DdTagsKey] == JStr(Join(edit.ddTags, ','))
              && EnvironmentKey in v.el.obj
              && v.el.obj[EnvironmentKey] == EnvironmentJson(edit.env)
  {
    match ExtractMap(el, LogConfigurationKey, title)
    case Failure(e) => Visited(el, Some(e))
    case Success(logConfiguration) =>
      match ExtractMap(JObj(logConfiguration), OptionsKey, title)
      case Failure(e) => Visited(el, Some(e))
      case Success(options) =>
        var options' := options[DdTagsKey := JStr(Join(edit.ddTags, ','))];
        var logged := SetField(el, LogConfigurationKey, JObj(logConfiguration[OptionsKey := JObj(options')]));
        Visited(SetField(logged, EnvironmentKey, EnvironmentJson(edit.env)), None)
  }

  /**
    Visits the definition at position `idx`. Every definition must be a map
    with a string name; one whose name is not the target is left alone; a
    matching one is retagged and patched. A failure after the retag keeps
    the retagged image in the returned state, as the in-place edit does.
  */
  function VisitDefinition(el: JVal, idx: nat, edit: Edit): (v: Visited)
    ensures !el.JObj? ==> v == Visited(el, Some(NotAMap(ContainerDefinition(idx))))
    ensures el.JObj? && NameKey !in el.obj ==> v == Visited(el, Some(MissingKey(ContainerDefinition(idx), NameKey)))
    ensures el.JObj? && NameKey in el.obj && !el.obj[NameKey].JStr? ==>
              v == Visited(el, Some(WrongShape(ContainerDefinition(idx), NameKey, StringShape)))
    ensures HasString(el, NameKey) && !Matches(el, edit) ==> v == Visited(el, None)
    ensures Matches(el, edit) && edit.containerTag != "" && !HasString(el, ImageKey) ==>
              v == Visited(el, Some(ExtractString(el, ImageKey, ContainerDefinition(idx)).error))
    ensures Matches(el, edit) && edit.containerTag != "" && HasString(el, ImageKey) &&
            Count(el.obj[ImageKey].str, ':') > 1 ==>
              v == Visited(el, Some(TooManyColons(el.obj[ImageKey].str)))
    ensures Matches(el, edit) && edit.containerTag == "" && !HasMap(el, LogConfigurationKey) ==>
              v == Visited(el, Some(ExtractMap(el, LogConfigurationKey, ContainerDefinition(idx)).error))
    ensures Matches(el, edit) && edit.containerTag == "" && HasMap(el, LogConfigurationKey) &&
            !HasMap(el.obj[LogConfigurationKey], OptionsKey) ==>
              v == Visited(el, Some(ExtractMap(el.obj[LogConfigurationKey], OptionsKey, ContainerDefinition(idx)).error))
  {
    var title := ContainerDefinition(idx);
    if !el.JObj? then Visited(el, Some(NotAMap(title)))
    else match ExtractString(el, NameKey, title)
      case Failure(e) => Visited(el, Some(e))
      case Success(name) =>
        if name != edit.containerName then Visited(el, None)
        else
          var imaged := RewriteImage(el, title, edit.containerTag);
          if imaged.err.Some? then imaged else PatchLogging(imaged.el, title, edit)
  }

  /** The definition is the one to edit. */
  predicate Matches(el: JVal, edit: Edit)
  {
    HasString(el, NameKey) && el.obj[NameKey].str == edit.containerName
  }

  /** The definition has every field of the shape the edit needs. */
  predicate Conforms(el: JVal, edit: Edit)
  {
    && HasString(el, NameKey)
    && (Matches(el, edit) ==>
          && (edit.containerTag != "" ==> HasString(el, ImageKey) && Count(el.obj[ImageKey].str, ':') <= 1)
          && HasMap(el, LogConfigurationKey)
          && HasMap(el.obj[LogConfigurationKey], OptionsKey))
  }

  /**
    `el'` is the conforming, matching definition `el` after a complete edit:
    the image retagged when a tag was requested, dd_tags set inside
    logConfiguration.options, environment replaced, everything else as it was.
  */
  predicate Patched(el: JVal, el': JVal, edit: Edit)
    requires Conforms(el, edit) && Matches(el, edit)
  {
    var logConfiguration := el.obj[LogConfigurationKey].obj;
    var options := logConfiguration[OptionsKey].obj;
    && el'.JObj?
    && el'.obj.Keys == el.obj.Keys + {EnvironmentKey}
    && (forall k :: (k in el.obj && k != LogConfigurationKey && k != EnvironmentKey &&
                     (k == ImageKey ==> edit.containerTag == "")) ==> el'.obj[k] == el.obj[k])
    && (edit.containerTag != "" ==>
          el'.obj[ImageKey] == JStr(Retag(el.obj[ImageKey].str, edit.containerTag).value))
    && HasMap(el', LogConfigurationKey)
    && el'.obj[LogConfigurationKey].obj.Keys == logConfiguration.Keys
    && (forall k :: k in logConfiguration && k != OptionsKey ==>
                    el'.obj[LogConfigurationKey].obj[k] == logConfiguration[k])
    && HasMap(el'.obj[LogConfigurationKey], OptionsKey)
    && el'.obj[LogConfigurationKey].obj[OptionsKey].obj.Keys == options.Keys + {DdTagsKey}
    && (forall k :: k in options && k != DdTagsKey ==>
                    el'.obj[LogConfigurationKey].obj[OptionsKey].obj[k] == options[k])
    && el'.obj[LogConfigurationKey].obj[OptionsKey].obj[DdTagsKey] == JStr(Join(edit.ddTags, ','))
    && el'.obj[EnvironmentKey] == EnvironmentJson(edit.env)
  }

  /** A visit succeeds exactly on a conforming definition. */
  lemma VisitSucceedsIff(el: JVal, idx: nat, edit: Edit)
    ensures VisitDefinition(el, idx, edit).err.None? <==> Conforms(el, edit)
  {
    if Matches(el, edit) && (edit.containerTag != "" ==> HasString(el, ImageKey) && Count(el.obj[ImageKey].str, ':') <= 1) {
      var imaged := RewriteImage(el, ContainerDefinition(idx), edit.containerTag);
      assert imaged.err.None?;
      assert imaged.el.obj.Keys >= el.obj.Keys;
      assert LogConfigurationKey in el.obj ==> imaged.el.obj[LogConfigurationKey] == el.obj[LogConfigurationKey];
    }
  }

  /** A matching, conforming definition is patched by its visit. */
  lemma VisitPatchesTarget(el: JVal, idx: nat, edit: Edit)
    requires Conforms(el, edit) && Matches(el, edit)
    ensures Patched(el, VisitDefinition(el, idx, edit).el, edit)
  {
    var title := ContainerDefinition(idx);
    var imaged := RewriteImage(el, title, edit.containerTag);
    assert imaged.err.None?;
    assert imaged.el.JObj? && imaged.el.obj.Keys == el.obj.Keys;
    assert forall k :: k in el.obj && k != ImageKey ==> imaged.el.obj[k] == el.obj[k];
    assert VisitDefinition(el, idx, edit) == PatchLogging(imaged.el, title, edit);
  }

  /**
    A visit of a conforming definition leaves it unchanged when it is not the
    target and patches it when it is.
  */
  lemma VisitDefinitionSpec(el: JVal, idx: nat, edit: Edit)
    ensures VisitDefinition(el, idx, edit).err.None? <==> Conforms(el, edit)
    ensures Conforms(el, edit) && !Matches(el, edit) ==> VisitDefinition(el, idx, edit).el == el
    ensures Conforms(el, edit) && Matches(el, edit) ==> Patched(el, VisitDefinition(el, idx, edit).el, edit)
  {
    VisitSucceedsIff(el, idx, edit);
    if Conforms(el, edit) && Matches(el, edit) {
      VisitPatchesTarget(el, idx, edit);
    }
  }

  /**
    The image is rewritten before logConfiguration and its options are looked
    at: a matching definition with a good image whose logConfiguration or
    options is missing or not a map fails, and the state it is left in
    already carries the new image.
  */
  lemma RetagSurvivesLoggingFailure(el: JVal, idx: nat, edit: Edit)
    requires Matches(el, edit) && edit.containerTag != ""
    requires HasString(el, ImageKey) && Count(el.obj[ImageKey].str, ':') <= 1
    requires !(HasMap(el, LogConfigurationKey) && HasMap(el.obj[LogConfigurationKey], OptionsKey))
    ensures VisitDefinition(el, idx, edit).el ==
              SetField(el, ImageKey, JStr(Retag(el.obj[ImageKey].str, edit.containerTag).value))
    ensures !HasMap(el, LogConfigurationKey) ==>
              VisitDefinition(el, idx, edit).err ==
                Some(if LogConfigurationKey in el.obj
                     then WrongShape(ContainerDefinition(idx), LogConfigurationKey, MapShape)
                     else MissingKey(ContainerDefinition(idx), LogConfigurationKey))
    ensures HasMap(el, LogConfigurationKey) ==>
              VisitDefinition(el, idx, edit).err ==
                Some(if OptionsKey in el.obj[LogConfigurationKey].obj
                     then WrongShape(ContainerDefinition(idx), OptionsKey, MapShape)
                     else MissingKey(ContainerDefinition(idx), OptionsKey))
  {
    var title := ContainerDefinition(idx);
    var retagged := SetField(el, ImageKey, JStr(Retag(el.obj[ImageKey].str, edit.containerTag).value));
    ReadOtherAfterWrite(el, ImageKey, JStr(Retag(el.obj[ImageKey].str, edit.containerTag).value),
                        LogConfigurationKey, title);
    assert VisitDefinition(el, idx, edit) == PatchLogging(retagged, title, edit);
  }

  /** Retagging a definition whose image already carries the tag changes nothing. */
  lemma RewriteImageStable(el: JVal, title: Title, tag: string)
    requires el.JObj?
    requires tag != "" ==> HasString(el, ImageKey) && Retag(el.obj[ImageKey].str, tag) == Success(el.obj[ImageKey].str)
    ensures RewriteImage(el, title, tag) == Visited(el, None)
  {
    if tag != "" {
      assert el.obj[ImageKey := el.obj[ImageKey]] == el.obj;
    }
  }

  /** Patching a definition that already holds the tags and the environment changes nothing. */
  lemma PatchLoggingStable(el: JVal, title: Title, edit: Edit)
    requires HasMap(el, LogConfigurationKey) && HasMap(el.obj[LogConfigurationKey], OptionsKey)
    requires DdTagsKey in el.obj[LogConfigurationKey].obj[OptionsKey].obj
    requires el.obj[LogConfigurationKey].obj[OptionsKey].obj[DdTagsKey] == JStr(Join(edit.ddTags, ','))
    requires EnvironmentKey in el.obj && el.obj[EnvironmentKey] == EnvironmentJson(edit.env)
    ensures PatchLogging(el, title, edit) == Visited(el, None)
  {
    var logConfiguration := el.obj[LogConfigurationKey].obj;
    var options := logConfiguration[OptionsKey].obj;
    assert options[DdTagsKey := JStr(Join(edit.ddTags, ','))] == options;
    assert logConfiguration[OptionsKey := JObj(options)] == logConfiguration;
    assert el.obj[LogConfigurationKey := JObj(logConfiguration)] == el.obj;
    assert el.obj[EnvironmentKey := EnvironmentJson(edit.env)] == el.obj;
  }

  /** Visiting an already edited definition again changes nothing, when the tag holds no ':'. */
  lemma VisitDefinitionIdempotent(el: JVal, idx: nat, idx': nat, edit: Edit)
    requires Conforms(el, edit) && ':' !in edit.containerTag
    ensures VisitDefinition(VisitDefinition(el, idx, edit).el, idx', edit) ==
              Visited(VisitDefinition(el, idx, edit).el, None)
  {
    VisitDefinitionSpec(el, idx, edit);
    if Matches(el, edit) {
      var el' := VisitDefinition(el, idx, edit).el;
      assert Patched(el, el', edit);
      if edit.containerTag != "" {
        RetagIdempotent(el.obj[ImageKey].str, edit.containerTag);
      }
      RewriteImageStable(el', ContainerDefinition(idx'), edit.containerTag);
      PatchLoggingStable(el', ContainerDefinition(idx'), edit);
    }
  }

  // ---------------------------------------------------------------------------
  // All container definitions

  /** The definitions after the walk, and the error that stopped it, if any. */
  datatype Walked = Walked(defs: seq<JVal>, err: Option<Error>)

  /** What visiting each definition, at its own position, would give. */
  function Visits(defs: seq<JVal>, edit: Edit): (vs: seq<Visited>)
  {
    seq(|defs|, j requires 0 <= j < |defs| => VisitDefinition(defs[j], j, edit))
  }

  /**
    Applies the visits in order and stops at the first failing one: the
    definitions before it and the failing one itself take their visited
    state, the ones after it are untouched.
  */
  function Apply(defs: seq<JVal>, vs: seq<Visited>): (w: Walked)
    requires |vs| == |defs|
    ensures |w.defs| == |defs|
  {
    if defs == [] then Walked([], None)
    else if vs[0].err.Some? then Walked([vs[0].el] + defs[1..], vs[0].err)
    else
      var rest := Apply(defs[1..], vs[1..]);
      Walked([vs[0].el] + rest.defs, rest.err)
  }

  /** Visits the container definitions in order, stopping at the first that fails. */
  function Walk(defs: seq<JVal>, edit: Edit): (w: Walked)
    ensures |w.defs| == |defs|
  {
    Apply(defs, Visits(defs, edit))
  }

  /** Position of the first failed visit, or |vs| if none failed. */
  function FirstFailure(vs: seq<Visited>): (k: nat)
    ensures k <= |vs|
    ensures forall j :: 0 <= j < k ==> vs[j].err.None?
    ensures k < |vs| ==> vs[k].err.Some?
  {
    if vs == [] then 0
    else if vs[0].err.Some? then 0
    else 1 + FirstFailure(vs[1..])
  }

  /**
    Applying the visits fails exactly when one of them fails, with the
    error of the first failure; every definition up to and including that
    one is in its visited state, every one after it is unchanged.
  */
  lemma {:induction false} ApplyOutcome(defs: seq<JVal>, vs: seq<Visited>)
    requires |vs| == |defs|
    ensures var w := Apply(defs, vs);
            var k := FirstFailure(vs);
            && (w.err.None? <==> k == |vs|)
            && (k < |vs| ==> w.err == vs[k].err)
            && forall j :: 0 <= j < |defs| ==> w.defs[j] == if j <= k then vs[j].el else defs[j]
  {
    if defs != [] && vs[0].err.None? {
      ApplyOutcome(defs[1..], vs[1..]);
      var w := Apply(defs, vs);
      var rest := Apply(defs[1..], vs[1..]);
      var k := FirstFailure(vs);
      assert k == 1 + FirstFailure(vs[1..]);
      forall j | 1 <= j < |defs|
        ensures w.defs[j] == if j <= k then vs[j].el else defs[j]
      {
        assert w.defs[j] == rest.defs[j - 1];
      }
    }
  }

  /** Position of the first definition that does not conform, or |defs| if all do. */
  function FirstNonConforming(defs: seq<JVal>, edit: Edit): (k: nat)
    ensures k <= |defs|
    ensures forall j :: 0 <= j < k ==> Conforms(defs[j], edit)
    ensures k < |defs| ==> !Conforms(defs[k], edit)
  {
    if defs == [] then 0
    else if !Conforms(defs[0], edit) then 0
    else 1 + FirstNonConforming(defs[1..], edit)
  }

  /** The first failing visit is at the first definition that does not conform. */
  lemma FirstFailureIsFirstNonConforming(defs: seq<JVal>, edit: Edit)
    ensures FirstFailure(Visits(defs, edit)) == FirstNonConforming(defs, edit)
  {
    var vs := Visits(defs, edit);
    var k := FirstNonConforming(defs, edit);
    forall j | 0 <= j <= k && j < |defs|
      ensures vs[j].err.None? <==> Conforms(defs[j], edit)
    {
      VisitSucceedsIff(defs[j], j, edit);
    }
    FirstFailureAt(vs, k);
  }

  /** FirstFailure is the position before which every visit succeeded and at which one failed. */
  lemma {:induction false} FirstFailureAt(vs: seq<Visited>, k: nat)
    requires k <= |vs|
    requires forall j :: 0 <= j < k ==> vs[j].err.None?
    requires k < |vs| ==> vs[k].err.Some?
    ensures FirstFailure(vs) == k
  {
    if k > 0 {
      FirstFailureAt(vs[1..], k - 1);
    }
  }

  /**
    The walk fails exactly when some definition does not conform, with the
    error of the first such one, even when it is not the target. Every
    definition up to and including that one is in its visited state (so
    earlier matches stay edited); every one after it is unchanged.
  */
  lemma WalkOutcome(defs: seq<JVal>, edit: Edit)
    ensures var w := Walk(defs, edit);
            var k := FirstNonConforming(defs, edit);
            && (w.err.None? <==> k == |defs|)
            && (k < |defs| ==> w.err == VisitDefinition(defs[k], k, edit).err)
            && forall j :: 0 <= j < |defs| ==>
                 w.defs[j] == if j <= k then VisitDefinition(defs[j], j, edit).el else defs[j]
  {
    ApplyOutcome(defs, Visits(defs, edit));
    FirstFailureIsFirstNonConforming(defs, edit);
  }

  /** A walk that succeeded, walked again, changes nothing (tag without ':'). */
  lemma WalkIdempotent(defs: seq<JVal>, edit: Edit)
    requires Walk(defs, edit).err.None? && ':' !in edit.containerTag
    ensures Walk(Walk(defs, edit).defs, edit) == Walk(defs, edit)
  {
    var w := Walk(defs, edit);
    var vs := Visits(defs, edit);
    ApplyOutcome(defs, vs);
    var vs' := Visits(w.defs, edit);
    forall j | 0 <= j < |defs|
      ensures vs'[j] == Visited(w.defs[j], None)
    {
      VisitSucceedsIff(defs[j], j, edit);
      VisitDefinitionIdempotent(defs[j], j, j, edit);
    }
    FirstFailureAt(vs', |vs'|);
    ApplyOutcome(w.defs, vs');
    assert Walk(w.defs, edit).defs == w.defs;
  }

  // ---------------------------------------------------------------------------
  // The whole document

  /** The document after the edit, and the error that stopped it, if any. */
  datatype Outcome = Outcome(root: map<string, JVal>, err: Option<Error>)

  /**
    Edits the document: containerDefinitions must be an array, which is then
    walked. The other root keys are never touched.
  */
  function Modify(root: map<string, JVal>, edit: Edit): (o: Outcome)
    ensures o.root.Keys == root.Keys
    ensures forall k :: k in root && k != ContainerDefinitionsKey ==> o.root[k] == root[k]
  {
    match ExtractSlice(root, ContainerDefinitionsKey, SourceTaskDefinition)
    case Failure(e) => Outcome(root, Some(e))
    case Success(defs) =>
      var w := Walk(defs, edit);
      Outcome(root[ContainerDefinitionsKey := JArr(w.defs)], w.err)
  }

  /** A missing or non-array containerDefinitions fails the edit and leaves the document unchanged. */
  lemma ModifyRejectsMalformedRoot(root: map<string, JVal>, edit: Edit)
    ensures ContainerDefinitionsKey !in root ==>
              Modify(root, edit) == Outcome(root, Some(MissingKey(SourceTaskDefinition, ContainerDefinitionsKey)))
    ensures ContainerDefinitionsKey in root && !root[ContainerDefinitionsKey].JArr? ==>
              Modify(root, edit) ==
                Outcome(root, Some(WrongShape(SourceTaskDefinition, ContainerDefinitionsKey, SliceShape)))
  {
  }

  /**
    Over an array of definitions, the edit fails exactly when some
    definition does not conform, and then reports the first such one.
    Writing `k` for its position (|defs| when the edit succeeds): before `k`
    a matching definition is patched and any other is unchanged; the one at
    `k` is left as its failed visit left it, which keeps an image already
    rewritten; after `k` every definition is unchanged.
  */
  lemma ModifyOutcome(root: map<string, JVal>, edit: Edit)
    requires ContainerDefinitionsKey in root && root[ContainerDefinitionsKey].JArr?
    ensures var defs := root[ContainerDefinitionsKey].arr;
            var o := Modify(root, edit);
            var k := FirstNonConforming(defs, edit);
            && (o.err.None? <==> k == |defs|)
            && (k < |defs| ==> o.err == VisitDefinition(defs[k], k, edit).err)
            && o.root[ContainerDefinitionsKey].JArr?
            && |o.root[ContainerDefinitionsKey].arr| == |defs|
            && (k < |defs| ==> o.root[ContainerDefinitionsKey].arr[k] == VisitDefinition(defs[k], k, edit).el)
            && (forall j :: k < j < |defs| ==> o.root[ContainerDefinitionsKey].arr[j] == defs[j])
            && (forall j :: 0 <= j < k && !Matches(defs[j], edit) ==>
                  o.root[ContainerDefinitionsKey].arr[j] == defs[j])
            && (forall j :: 0 <= j < k && Matches(defs[j], edit) ==>
                  Patched(defs[j], o.root[ContainerDefinitionsKey].arr[j], edit))
  {
    var defs := root[ContainerDefinitionsKey].arr;
    var w := Walk(defs, edit);
    var k := FirstNonConforming(defs, edit);
    WalkOutcome(defs, edit);
    forall j | 0 <= j < k
      ensures !Matches(defs[j], edit) ==> w.defs[j] == defs[j]
      ensures Matches(defs[j], edit) ==> Patched(defs[j], w.defs[j], edit)
    {
      VisitDefinitionSpec(defs[j], j, edit);
    }
  }

  /** With no definition named like the target, the edit succeeds and changes nothing. */
  lemma ModifyWithoutMatchIsIdentity(root: map<string, JVal>, edit: Edit)
    requires ContainerDefinitionsKey in root && root[ContainerDefinitionsKey].JArr?
    requires forall j :: 0 <= j < |root[ContainerDefinitionsKey].arr| ==>
               HasString(root[ContainerDefinitionsKey].arr[j], NameKey) &&
               !Matches(root[ContainerDefinitionsKey].arr[j], edit)
    ensures Modify(root, edit) == Outcome(root, None)
  {
    var defs := root[ContainerDefinitionsKey].arr;
    var w := Walk(defs, edit);
    WalkOutcome(defs, edit);
    forall j | 0 <= j < |defs|
      ensures w.defs[j] == defs[j]
    {
      VisitDefinitionSpec(defs[j], j, edit);
    }
    assert w.defs == defs;
    assert root[ContainerDefinitionsKey := JArr(defs)] == root;
  }

  /** Running a successful edit a second time, with a tag without ':', gives the same document. */
  lemma ModifyIdempotent(root: map<string, JVal>, edit: Edit)
    requires Modify(root, edit).err.None? && ':' !in edit.containerTag
    ensures Modify(Modify(root, edit).root, edit) == Modify(root, edit)
  {
    var defs := root[ContainerDefinitionsKey].arr;
    WalkIdempotent(defs, edit);
    var root' := Modify(root, edit).root;
    assert root'[ContainerDefinitionsKey] == JArr(Walk(defs, edit).defs);
    assert root'[ContainerDefinitionsKey := JArr(Walk(defs, edit).defs)] == root';
  }
}
