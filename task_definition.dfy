/**
  The task-definition document held by the running program and the edit of
  one container in it. The Go program keeps the decoded document as a map
  whose nested maps are shared references, so every assignment during the
  edit is visible in the document at once; here the document is the field
  `root`, and every step that changes a container definition writes it back
  into `root` immediately. An error therefore leaves behind exactly the
  changes made before it.
*/
module TaskDefinition {
  import opened Strings
  import opened Errors
  import opened Document
  import opened Environment
  import opened Containers

  /** The definitions already handled, followed by the outcome of walking the rest. */
  function Prepend(done: seq<JVal>, w: Walked): Walked
  {
    Walked(done + w.defs, w.err)
  }

  /** One step of the walk: the visit at `idx` either stops it there or hands on to the rest. */
  lemma WalkStep(original: seq<JVal>, visits: seq<Visited>, done: seq<JVal>, idx: nat, edit: Edit)
    requires |visits| == |original| && idx < |original|
    requires Walk(original, edit) == Prepend(done, Apply(original[idx..], visits[idx..]))
    ensures visits[idx].err.Some? ==>
              Walk(original, edit) == Walked(done + [visits[idx].el] + original[idx + 1..], visits[idx].err)
    ensures visits[idx].err.None? ==>
              Walk(original, edit) == Prepend(done + [visits[idx].el], Apply(original[idx + 1..], visits[idx + 1..]))
  {
    assert original[idx..][1..] == original[idx + 1..];
    assert visits[idx..][1..] == visits[idx + 1..];
  }

  /**
    The walk after the definition at `idx` was visited: it stopped there with
    the visit's error, or it goes on from `idx + 1`.
  */
  lemma WalkAdvance(original: seq<JVal>, visits: seq<Visited>, defs: seq<JVal>, defs': seq<JVal>, idx: nat, edit: Edit)
    requires |visits| == |original| == |defs| && idx < |original|
    requires defs[idx..] == original[idx..]
    requires Walk(original, edit) == Prepend(defs[..idx], Apply(original[idx..], visits[idx..]))
    requires defs' == defs[idx := visits[idx].el]
    ensures visits[idx].err.Some? ==> Walk(original, edit) == Walked(defs', visits[idx].err)
    ensures visits[idx].err.None? ==>
              && defs'[idx + 1..] == original[idx + 1..]
              && Walk(original, edit) == Prepend(defs'[..idx + 1], Apply(original[idx + 1..], visits[idx + 1..]))
  {
    WalkStep(original, visits, defs[..idx], idx, edit);
    assert defs' == defs[..idx] + [visits[idx].el] + original[idx + 1..];
    assert defs'[..idx + 1] == defs[..idx] + [visits[idx].el];
  }

  class TaskDefinitionData {
    var root: map<string, JVal>

    constructor (document: map<string, JVal>)
      ensures root == document
    {
      root := document;
    }

    /**
      Edits every container definition named `containerName`: when
      `containerTag` is not empty its image gets that tag; its
      logConfiguration.options.dd_tags becomes the comma-joined `ddTags`; its
      environment becomes `env`. The definitions are checked in order and the
      first malformed one stops the edit with an error.
    */
    method ModifyContainerDefinition(containerName: string, containerTag: string,
                                     ddTags: seq<string>, env: seq<EnvVar>)
      returns (err: Option<Error>)
      modifies this
      ensures var o := Modify(old(root), Edit(containerName, containerTag, ddTags, env));
              root == o.root && err == o.err
    {
      var edit := Edit(containerName, containerTag, ddTags, env);
      var extracted := ExtractSlice(root, ContainerDefinitionsKey, SourceTaskDefinition);
      if extracted.Failure? {
        return Some(extracted.error);
      }
      var defs := extracted.value;
      ghost var original := defs;
      ghost var visits := Visits(original, edit);
      assert root == root[ContainerDefinitionsKey := JArr(defs)];
      var idx := 0;
      while idx < |defs|
        invariant 0 <= idx <= |defs| == |original|
        invariant defs[idx..] == original[idx..]
        invariant root == old(root)[ContainerDefinitionsKey := JArr(defs)]
        invariant Walk(original, edit) == Prepend(defs[..idx], Apply(original[idx..], visits[idx..]))
      {
        assert defs[idx] == original[idx];
        var defs';
        defs', err := ModifyDefinitionAt(defs, idx, edit, visits[idx]);
        WalkAdvance(original, visits, defs, defs', idx, edit);
        defs := defs';
        if err.Some? {
          return err;
        }
        idx := idx + 1;
      }
      assert original[idx..] == [] && visits[idx..] == [];
      assert defs[..idx] + [] == defs;
      return None;
    }

    /**
      The body of the walk for the definition at position `idx` of `defs`,
      the array stored under containerDefinitions. Each change is written
      into the document as soon as it is made, so a failure after the image
      rewrite leaves the new image in place.
    */
    method ModifyDefinitionAt(defs: seq<JVal>, idx: nat, edit: Edit, ghost visit: Visited)
      returns (defs': seq<JVal>, err: Option<Error>)
      requires idx < |defs| && visit == VisitDefinition(defs[idx], idx, edit)
      requires ContainerDefinitionsKey in root && root[ContainerDefinitionsKey] == JArr(defs)
      modifies this
      ensures defs' == defs[idx := visit.el] && err == visit.err
      ensures root == old(root)[ContainerDefinitionsKey := JArr(defs')]
    {
      defs' := defs;
      var definition := defs[idx];
      assert root == old(root)[ContainerDefinitionsKey := JArr(defs')];
      if !definition.JObj? {
        return defs', Some(NotAMap(ContainerDefinition(idx)));
      }
      var title := ContainerDefinition(idx);
      var name := ExtractString(definition, NameKey, title);
      if name.Failure? {
        return defs', Some(name.error);
      }
      if name.value != edit.containerName {
        return defs', None;
      }
      ghost var imaged := RewriteImage(definition, title, edit.containerTag);
      assert visit == if imaged.err.Some? then imaged else PatchLogging(imaged.el, title, edit);
      if edit.containerTag != "" {
        var image := ExtractString(definition, ImageKey, title);
        if image.Failure? {
          return defs', Some(image.error);
        }
        var parts := Split(image.value, ':');
        if |parts| > 2 {
          return defs', Some(TooManyColons(image.value));
        }
        definition := SetField(definition, ImageKey, JStr(parts[0] + ":" + edit.containerTag));
        defs' := defs[idx := definition];
        root := root[ContainerDefinitionsKey := JArr(defs')];
        StoreTwice(old(root), ContainerDefinitionsKey, JArr(defs), JArr(defs'));
      }
      assert imaged == Visited(definition, None);
      var logConfiguration := ExtractMap(definition, LogConfigurationKey, title);
      if logConfiguration.Failure? {
        return defs', Some(logConfiguration.error);
      }
      var options := ExtractMap(JObj(logConfiguration.value), OptionsKey, title);
      if options.Failure? {
        return defs', Some(options.error);
      }
      var options' := options.value[DdTagsKey := JStr(Join(edit.ddTags, ','))];
      definition := SetField(definition, LogConfigurationKey,
                             JObj(logConfiguration.value[OptionsKey := JObj(options')]));
      ghost var stored := defs';
      defs' := defs[idx := definition];
      root := root[ContainerDefinitionsKey := JArr(defs')];
      StoreTwice(old(root), ContainerDefinitionsKey, JArr(stored), JArr(defs'));
      stored := defs';
      definition := SetField(definition, EnvironmentKey, EnvironmentJson(edit.env));
      defs' := defs[idx := definition];
      root := root[ContainerDefinitionsKey := JArr(defs')];
      StoreTwice(old(root), ContainerDefinitionsKey, JArr(stored), JArr(defs'));
      return defs', None;
    }
  }
}
