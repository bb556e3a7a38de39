/**
 The writer of core/safe_writer.py. It runs the PRE_WRITE handlers in a loop of its own, and
 raises where the registry would deny.
 */
module SafeWriter {
  import opened Common
  import opened SecretScrub
  import opened Hooks

  function PreWritePayload(action: string, relPath: string, content: Option<string>): Payload {
    var payload := map["event" := "pre_write", "action" := action, "path" := relPath];
    if content.Some? then payload["content" := content.value] else payload
  }

  /** What the handlers of a write are told. */
  lemma PayloadTells(action: string, relPath: string, content: Option<string>)
    ensures var p := PreWritePayload(action, relPath, content);
            && p.Keys == {"event", "action", "path"} + (if content.Some? then {"content"} else {})
            && p["event"] == "pre_write" && p["action"] == action && p["path"] == relPath
            && (content.Some? ==> p["content"] == content.value)
  {
  }

  function ApplyModify(d: HookDecision, content: string): string {
    if d.action == Modify && d.modifiedContent.Some? then d.modifiedContent.value else content
  }

  /** Two ways of running the same handlers agree: the writer raises exactly when the
      registry denies, and otherwise has the registry's decision. */
  ghost predicate Agrees(hs: seq<HookHandler>, payload: Payload, r: Result<HookDecision, string>) {
    forall d :: RightDecision(hs, payload, d) ==> if d.action == Deny then r.Err? else r == Ok(d)
  }

  class SafeWriter {
    const registry: HookRegistry?
    var files: map<string, string>

    constructor (registry: HookRegistry?, files: map<string, string>)
      ensures this.registry == registry && this.files == files
    {
      this.registry := registry;
      this.files := files;
    }

    /** `_emit` */
    method Emit(action: string, relPath: string, content: Option<string>) returns (r: Result<HookDecision, string>)
      ensures registry == null || !registry.enabled ==> r == Ok(Allowing("no_registry"))
      ensures registry != null && registry.enabled ==>
                Agrees(registry.For(PreWrite), PreWritePayload(action, relPath, content), r)
    {
      if registry == null || !registry.enabled {
        return Ok(Allowing("no_registry"));
      }
      ghost var start := PreWritePayload(action, relPath, content);
      var hs := registry.For(PreWrite);
      var payload, finalModify := PreWritePayload(action, relPath, content), None;
      for i := 0 to |hs|
        invariant Passes(hs, start, i)
        invariant payload == Threaded(hs, start, i) && finalModify == LastChange(hs, start, i)
      {
        var o := hs[i].execute(payload);
        assert o == OutcomeAt(hs, start, i);
        match o {
          case Raised(m) =>
            DeniesAt(hs, start, i);
            return Err("hook_exception:" + hs[i].name + ":" + m);
          case Decided(decision) =>
            if decision.action == Deny {
              DeniesAt(hs, start, i);
              return Err("hook denied " + action + " " + relPath + ": " + decision.reason);
            }
            if decision.action == Modify && decision.modifiedContent.Some? {
              payload := payload["content" := decision.modifiedContent.value];
              finalModify := Some(decision);
            }
        }
      }
      LastChangeIsComposition(hs, start, |hs|);
      return Ok(if finalModify.Some? then finalModify.value else Allowing(""));
    }

    lemma DeniesAt(hs: seq<HookHandler>, payload: Payload, i: nat)
      requires i < |hs| && Blocks(OutcomeAt(hs, payload, i))
      ensures forall d :: RightDecision(hs, payload, d) ==> d.action == Deny
    {
      forall d | RightDecision(hs, payload, d)
        ensures d.action == Deny
      {
        DecisionMeaning(hs, payload, d);
      }
    }

    /** `write_text`, for a path that has been resolved inside the project. */
    method WriteText(path: string, relPath: string, content: string) returns (r: Result<string, string>)
      modifies this`files
      ensures r.Err? ==> files == old(files)
      ensures r.Ok? ==> files == old(files)[path := r.value]
      ensures registry == null || !registry.enabled ==> r == Ok(content)
      ensures registry != null && registry.enabled ==>
                forall d :: RightDecision(registry.For(PreWrite),
                                          PreWritePayload("write", relPath, Some(content)), d) ==>
                              if d.action == Deny then r.Err? else r == Ok(ApplyModify(d, content))
    {
      var decision := Emit("write", relPath, Some(content));
      if decision.Err? {
        return Err(decision.error);
      }
      var final := ApplyModify(decision.value, content);
      files := files[path := final];
      return Ok(final);
    }

    /** `unlink`: true when there was a file to delete. */
    method Unlink(path: string, relPath: string) returns (r: Result<bool, string>)
      modifies this`files
      ensures r.Err? ==> files == old(files)
      ensures r.Ok? ==> files == old(files) - {path} && r.value == (path in old(files))
      ensures registry != null && registry.enabled ==>
                forall d :: RightDecision(registry.For(PreWrite), PreWritePayload("delete", relPath, None), d) ==>
                              (d.action == Deny <==> r.Err?)
    {
      var decision := Emit("delete", relPath, None);
      if decision.Err? {
        return Err(decision.error);
      }
      if path in files {
        files := files - {path};
        return Ok(true);
      }
      return Ok(false);
    }
  }

  // ----- the default pipeline with the guard switched off

  function DefaultPreWrite(): seq<HookHandler> {
    [ HookHandler("path_guard", PreWrite, PathGuard),
      HookHandler("secret_scrub_write", PreWrite, SecretScrubHook),
      HookHandler("guard_evaluate_write", PreWrite, GuardOff) ]
  }

  /** With the default handlers and the guard switched off, a write is refused exactly for a
      blocked path, and otherwise stores the scrubbed content, which holds no secret. */
  lemma DefaultPipelineScrubs(relPath: string, content: string, d: HookDecision)
    requires RightDecision(DefaultPreWrite(), PreWritePayload("write", relPath, Some(content)), d)
    ensures d.action == Deny <==> relPath != "" && BlockedPath(relPath)
    ensures d.action != Deny ==>
              ApplyModify(d, content) == Scrub(content) && !HasSecret(PATTERNS, ApplyModify(d, content))
  {
    var hs, p := DefaultPreWrite(), PreWritePayload("write", relPath, Some(content));
    assert Threaded(hs, p, 0) == p;
    assert OutcomeAt(hs, p, 0) == PathGuard(p);
    assert Threaded(hs, p, 1) == p;
    assert OutcomeAt(hs, p, 1) == SecretScrubHook(p);
    assert !Blocks(OutcomeAt(hs, p, 1)) && !Blocks(OutcomeAt(hs, p, 2));
    ScrubFixpoint(PATTERNS, content);
    ScrubIsComplete(PATTERNS, content);
    DecisionMeaning(hs, p, d);
    if d.action != Deny {
      assert Passes(hs, p, 3);
      assert LastChange(hs, p, 1) == None;
      assert LastChange(hs, p, 3) == LastChange(hs, p, 2);
    }
  }

  lemma DefaultWrite(relPath: string, content: string, r: Result<string, string>)
    requires forall d :: RightDecision(DefaultPreWrite(), PreWritePayload("write", relPath, Some(content)), d) ==>
                           if d.action == Deny then r.Err? else r == Ok(ApplyModify(d, content))
    ensures if relPath != "" && BlockedPath(relPath) then r.Err? else r == Ok(Scrub(content))
  {
    var d := RightDecisionExists(DefaultPreWrite(), PreWritePayload("write", relPath, Some(content)));
    DefaultPipelineScrubs(relPath, content, d);
  }

  /** A writer with the default registry and the guard switched off stores the scrubbed text under
      every path that is not blocked, and nothing under one that is. */
  method WriteByDefault(files: map<string, string>, dangerous: string -> bool, path: string, relPath: string,
                        content: string)
    returns (writer: SafeWriter, r: Result<string, string>)
    ensures if relPath != "" && BlockedPath(relPath) then r.Err? && writer.files == files
            else r == Ok(Scrub(content)) && writer.files == files[path := Scrub(content)]
  {
    var registry := new HookRegistry.Default(GuardOff, dangerous);
    writer := new SafeWriter(registry, files);
    assert registry.For(PreWrite) == DefaultPreWrite();
    r := writer.WriteText(path, relPath, content);
    DefaultWrite(relPath, content, r);
  }
}
