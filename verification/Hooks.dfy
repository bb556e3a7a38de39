/**
 The hook pipeline of core/hooks.py: handlers run in registration order, a denial (or an
 exception) ends the run, a modification is what the next handler sees.
 */
module Hooks {
  import opened Common
  import opened SecretScrub

  datatype HookEvent = PreWrite | PostLlm | PreExec | PostExec

  datatype HookAction = Allow | Deny | Modify

  datatype HookDecision = HookDecision(action: HookAction, reason: string, modifiedContent: Option<string>) {
    predicate Allowed() {
      action != Deny
    }
  }

  function Allowing(reason: string): HookDecision {
    HookDecision(Allow, reason, None)
  }

  function Denying(reason: string): HookDecision {
    HookDecision(Deny, reason, None)
  }

  type Payload = map<string, string>

  function Get(payload: Payload, key: string, default: string): string {
    if key in payload then payload[key] else default
  }

  /** What running a handler comes to; an awaitable handler is awaited first. */
  datatype Outcome = Decided(decision: HookDecision) | Raised(message: string)

  datatype HookHandler = HookHandler(name: string, event: HookEvent, execute: Payload -> Outcome)

  // ----- what a run of handlers means

  predicate Modifies(o: Outcome) {
    o.Decided? && o.decision.action == Modify && o.decision.modifiedContent.Some?
  }

  predicate Blocks(o: Outcome) {
    o.Raised? || o.decision.action == Deny
  }

  /** The payload as the i-th handler sees it: all earlier modifications applied in turn. */
  function Threaded(hs: seq<HookHandler>, payload: Payload, i: nat): Payload
    requires i <= |hs|
  {
    if i == 0 then payload
    else
      var before := Threaded(hs, payload, i - 1);
      var o := hs[i - 1].execute(before);
      if Modifies(o) then before["content" := o.decision.modifiedContent.value] else before
  }

  function OutcomeAt(hs: seq<HookHandler>, payload: Payload, i: nat): Outcome
    requires i < |hs|
  {
    hs[i].execute(Threaded(hs, payload, i))
  }

  /** The first i handlers let the payload through. */
  ghost predicate Passes(hs: seq<HookHandler>, payload: Payload, i: nat)
    requires i <= |hs|
  {
    forall j :: 0 <= j < i ==> !Blocks(OutcomeAt(hs, payload, j))
  }

  /** The last of the first i decisions that changed the content. */
  function LastChange(hs: seq<HookHandler>, payload: Payload, i: nat): Option<HookDecision>
    requires i <= |hs|
  {
    if i == 0 then None
    else if Modifies(OutcomeAt(hs, payload, i - 1)) then Some(OutcomeAt(hs, payload, i - 1).decision)
    else LastChange(hs, payload, i - 1)
  }

  /** The decision d is the right one for these handlers. */
  ghost predicate RightDecision(hs: seq<HookHandler>, payload: Payload, d: HookDecision) {
    if Passes(hs, payload, |hs|) then
      d == if LastChange(hs, payload, |hs|).Some? then LastChange(hs, payload, |hs|).value else Allowing("")
    else
      exists i :: 0 <= i < |hs| && Passes(hs, payload, i) && BlocksWith(hs[i], OutcomeAt(hs, payload, i), d)
  }

  ghost predicate BlocksWith(h: HookHandler, o: Outcome, d: HookDecision) {
    match o
    case Raised(m) => d == Denying("hook_exception:" + h.name + ":" + m)
    case Decided(decision) => decision.action == Deny && d == decision
  }

  /** The content of the last modification is the left-to-right composition of them all. */
  lemma {:induction false} LastChangeIsComposition(hs: seq<HookHandler>, payload: Payload, i: nat)
    requires i <= |hs|
    ensures match LastChange(hs, payload, i)
            case Some(d) =>
              && d.action == Modify && d.modifiedContent.Some?
              && Threaded(hs, payload, i) == payload["content" := d.modifiedContent.value]
            case None => Threaded(hs, payload, i) == payload
  {
    if i > 0 {
      LastChangeIsComposition(hs, payload, i - 1);
    }
  }

  /** Position i is the first one that blocks. */
  ghost predicate FirstBlock(hs: seq<HookHandler>, payload: Payload, i: nat) {
    i < |hs| && Passes(hs, payload, i) && Blocks(OutcomeAt(hs, payload, i))
  }

  lemma {:induction false} FindBlock(hs: seq<HookHandler>, payload: Payload, n: nat) returns (i: nat)
    requires n <= |hs| && !Passes(hs, payload, n)
    ensures i < n && FirstBlock(hs, payload, i)
  {
    if Passes(hs, payload, n - 1) {
      i := n - 1;
    } else {
      i := FindBlock(hs, payload, n - 1);
    }
  }

  lemma FirstBlockIsUnique(hs: seq<HookHandler>, payload: Payload, i: nat, j: nat)
    requires FirstBlock(hs, payload, i) && FirstBlock(hs, payload, j)
    ensures i == j
  {
  }

  /** The handlers and the payload determine the decision. */
  lemma RightDecisionIsUnique(hs: seq<HookHandler>, payload: Payload, d1: HookDecision, d2: HookDecision)
    requires RightDecision(hs, payload, d1) && RightDecision(hs, payload, d2)
    ensures d1 == d2
  {
    if !Passes(hs, payload, |hs|) {
      var i :| 0 <= i < |hs| && Passes(hs, payload, i) && BlocksWith(hs[i], OutcomeAt(hs, payload, i), d1);
      var j :| 0 <= j < |hs| && Passes(hs, payload, j) && BlocksWith(hs[j], OutcomeAt(hs, payload, j), d2);
      FirstBlockIsUnique(hs, payload, i, j);
    }
  }

  lemma RightDecisionExists(hs: seq<HookHandler>, payload: Payload) returns (d: HookDecision)
    ensures RightDecision(hs, payload, d)
  {
    if Passes(hs, payload, |hs|) {
      d := if LastChange(hs, payload, |hs|).Some? then LastChange(hs, payload, |hs|).value else Allowing("");
    } else {
      var i := FindBlock(hs, payload, |hs|);
      var o := OutcomeAt(hs, payload, i);
      d := if o.Raised? then Denying("hook_exception:" + hs[i].name + ":" + o.message) else o.decision;
      assert BlocksWith(hs[i], o, d);
    }
  }

  /** A decision denies exactly when some handler, given what the earlier ones left of the
      payload, raises or denies; otherwise it carries the composition of all modifications. */
  lemma DecisionMeaning(hs: seq<HookHandler>, payload: Payload, d: HookDecision)
    requires RightDecision(hs, payload, d)
    ensures d.action == Deny <==> exists i :: 0 <= i < |hs| && Blocks(OutcomeAt(hs, payload, i))
    ensures d.action == Modify ==>
              d.modifiedContent.Some? && Threaded(hs, payload, |hs|) == payload["content" := d.modifiedContent.value]
    ensures d.action == Allow ==> Threaded(hs, payload, |hs|) == payload
  {
    LastChangeIsComposition(hs, payload, |hs|);
    if Passes(hs, payload, |hs|) {
      assert forall i :: 0 <= i < |hs| ==> !Blocks(OutcomeAt(hs, payload, i));
    } else {
      var i :| 0 <= i < |hs| && Passes(hs, payload, i) && BlocksWith(hs[i], OutcomeAt(hs, payload, i), d);
      assert Blocks(OutcomeAt(hs, payload, i));
    }
  }

  class HookRegistry {
    var handlers: map<HookEvent, seq<HookHandler>>
    var enabled: bool

    constructor ()
      ensures handlers == map[] && enabled
    {
      handlers := map[];
      enabled := true;
    }

    /** `default_registry`; the guard service and the pattern of dangerous commands are
        parameters. */
    constructor Default(guard: Payload -> Outcome, dangerous: string -> bool)
      ensures enabled
      ensures For(PreWrite) == [HookHandler("path_guard", PreWrite, PathGuard),
                                HookHandler("secret_scrub_write", PreWrite, SecretScrubHook),
                                HookHandler("guard_evaluate_write", PreWrite, guard)]
      ensures For(PostLlm) == [HookHandler("secret_scrub", PostLlm, SecretScrubHook),
                               HookHandler("guard_evaluate", PostLlm, guard)]
      ensures For(PreExec) == [HookHandler("dangerous_cmd_guard", PreExec, DangerousCmdGuard(dangerous))]
      ensures For(PostExec) == [HookHandler("audit_log", PostExec, AuditLog)]
    {
      handlers := map[];
      enabled := true;
      new;
      Register(HookHandler("path_guard", PreWrite, PathGuard));
      Register(HookHandler("dangerous_cmd_guard", PreExec, DangerousCmdGuard(dangerous)));
      Register(HookHandler("secret_scrub", PostLlm, SecretScrubHook));
      Register(HookHandler("secret_scrub_write", PreWrite, SecretScrubHook));
      Register(HookHandler("audit_log", PostExec, AuditLog));
      Register(HookHandler("guard_evaluate", PostLlm, guard));
      Register(HookHandler("guard_evaluate_write", PreWrite, guard));
    }

    function For(event: HookEvent): seq<HookHandler>
      reads this
    {
      if event in handlers then handlers[event] else []
    }

    method Register(h: HookHandler)
      modifies this`handlers
      ensures handlers == old(handlers)[h.event := old(For(h.event)) + [h]]
    {
      handlers := handlers[h.event := For(h.event) + [h]];
    }

    /** `emit`: `payload` is rebound by every modification. */
    method Emit(event: HookEvent, payload: Payload) returns (d: HookDecision)
      ensures !enabled ==> d == Allowing("hooks_disabled")
      ensures enabled ==> RightDecision(For(event), payload, d)
    {
      if !enabled {
        return Allowing("hooks_disabled");
      }
      var hs := For(event);
      var current, finalModify := payload, None;
      for i := 0 to |hs|
        invariant Passes(hs, payload, i)
        invariant current == Threaded(hs, payload, i) && finalModify == LastChange(hs, payload, i)
      {
        var o := hs[i].execute(current);
        assert o == OutcomeAt(hs, payload, i);
        match o {
          case Raised(m) =>
            return Denying("hook_exception:" + hs[i].name + ":" + m);
          case Decided(decision) =>
            if decision.action == Deny {
              return decision;
            }
            if decision.action == Modify && decision.modifiedContent.Some? {
              current := current["content" := decision.modifiedContent.value];
              finalModify := Some(decision);
            }
        }
      }
      if finalModify.Some? {
        return finalModify.value;
      }
      return Allowing("");
    }
  }

  // ----- the built-in handlers

  predicate StartsWith(s: string, p: string) {
    p <= s
  }

  /** `re.search` for a fixed text. */
  predicate Contains(s: string, p: string) {
    exists i :: 0 <= i <= |s| && StartsWith(s[i..], p)
  }

  /** `_PATH_TRAVERSAL_RE`: two climbs in a row, or a system directory. */
  predicate BlockedPath(path: string) {
    Contains(path, "../../") || Contains(path, "/etc/") || Contains(path, "/var/log/") || Contains(path, "/root/")
  }

  function PathGuard(payload: Payload): Outcome {
    var target := Get(payload, "path", "");
    if target == "" then Decided(Allowing("no_path"))
    else if BlockedPath(target) then Decided(Denying("path_guard:blocked_path:" + target))
    else Decided(Allowing(""))
  }

  function SecretScrubHook(payload: Payload): Outcome {
    var content := Get(payload, "content", "");
    if content == "" then Decided(Allowing("no_content"))
    else
      var (scrubbed, count) := Subn(PATTERNS, content);
      if count > 0 then Decided(HookDecision(Modify, "secret_scrub", Some(scrubbed)))
      else Decided(Allowing(""))
  }

  function DangerousCmdGuard(dangerous: string -> bool): Payload -> Outcome {
    (payload: Payload) =>
      if dangerous(Get(payload, "command", Get(payload, "content", "")))
      then Decided(Denying("dangerous_cmd_guard:destructive_command"))
      else Decided(Allowing(""))
  }

  /** `audit_log` records and allows, whatever happens to the record. */
  function AuditLog(payload: Payload): Outcome {
    Decided(Allowing(""))
  }

  /** `GuardBridge.evaluate` of a bridge that is switched off. */
  function GuardOff(payload: Payload): Outcome {
    Decided(Allowing("guard_unavailable_fallback_regex"))
  }

  /** `s` stands somewhere in `text`. */
  ghost predicate Holds(text: string, s: string) {
    exists before, after :: text == before + s + after
  }

  lemma ContainsIsHolds(text: string, s: string)
    ensures Contains(text, s) <==> Holds(text, s)
  {
    if Contains(text, s) {
      var i :| 0 <= i <= |text| && StartsWith(text[i..], s);
      assert text == text[..i] + s + text[i + |s|..];
    }
    if Holds(text, s) {
      var before, after :| text == before + s + after;
      assert text[|before|..] == s + after;
    }
  }

  /** Exactly these paths are blocked. */
  lemma BlockedMeaning(path: string)
    ensures BlockedPath(path) <==> exists s <- {"../../", "/etc/", "/var/log/", "/root/"} :: Holds(path, s)
  {
    ContainsIsHolds(path, "../../");
    ContainsIsHolds(path, "/etc/");
    ContainsIsHolds(path, "/var/log/");
    ContainsIsHolds(path, "/root/");
  }

  /** What a single handler decides. */
  lemma OneHandler(hs: seq<HookHandler>, payload: Payload, d: HookDecision)
    requires |hs| == 1 && RightDecision(hs, payload, d)
    ensures match hs[0].execute(payload)
            case Raised(m) => d == Denying("hook_exception:" + hs[0].name + ":" + m)
            case Decided(own) => d == if own.action == Deny || (own.action == Modify && own.modifiedContent.Some?)
                                      then own else Allowing("")
  {
    assert Threaded(hs, payload, 0) == payload;
    assert OutcomeAt(hs, payload, 0) == hs[0].execute(payload);
    assert LastChange(hs, payload, 0) == None;
    assert Passes(hs, payload, 1) <==> !Blocks(OutcomeAt(hs, payload, 0));
  }

  /** What the path guard decides, whatever else is in the payload. */
  lemma PathGuardDecides(payload: Payload)
    ensures PathGuard(payload).Decided?
    ensures var d := PathGuard(payload).decision;
            if "path" !in payload || payload["path"] == "" then d == Allowing("no_path")
            else if BlockedPath(payload["path"]) then d == Denying("path_guard:blocked_path:" + payload["path"])
            else d == Allowing("")
  {
  }

  /** The scrubber changes exactly a content that holds a secret, and never denies. */
  lemma ScrubHookDecides(payload: Payload)
    ensures SecretScrubHook(payload).Decided?
    ensures var d := SecretScrubHook(payload).decision;
            if "content" !in payload || payload["content"] == "" then d == Allowing("no_content")
            else if HasSecret(PATTERNS, payload["content"]) then
              d == HookDecision(Modify, "secret_scrub", Some(Scrub(payload["content"])))
            else d == Allowing("")
  {
    if "content" in payload {
      ScrubFixpoint(PATTERNS, payload["content"]);
    }
  }

  /** Logging and a guard that is switched off neither deny nor change anything, alone or among others. */
  lemma PassiveHandlers(payload: Payload)
    ensures !Blocks(AuditLog(payload)) && !Modifies(AuditLog(payload))
    ensures !Blocks(GuardOff(payload)) && !Modifies(GuardOff(payload))
  {
  }

  lemma GuardDecides(dangerous: string -> bool, payload: Payload, command: string)
    requires command == if "command" in payload then payload["command"]
                        else if "content" in payload then payload["content"] else ""
    ensures DangerousCmdGuard(dangerous)(payload)
            == Decided(if dangerous(command) then Denying("dangerous_cmd_guard:destructive_command") else Allowing(""))
  {
    assert command == Get(payload, "command", Get(payload, "content", ""));
  }

  /** The default PRE_EXEC handlers deny exactly a dangerous command, which is the content if no command is given. */
  lemma DangerousIsDenied(dangerous: string -> bool, payload: Payload, d: HookDecision)
    requires RightDecision([HookHandler("dangerous_cmd_guard", PreExec, DangerousCmdGuard(dangerous))], payload, d)
    ensures d.action == Deny <==>
            || ("command" in payload && dangerous(payload["command"]))
            || ("command" !in payload && "content" in payload && dangerous(payload["content"]))
            || ("command" !in payload && "content" !in payload && dangerous(""))
    ensures d == if d.action == Deny then Denying("dangerous_cmd_guard:destructive_command") else Allowing("")
  {
    var hs := [HookHandler("dangerous_cmd_guard", PreExec, DangerousCmdGuard(dangerous))];
    OneHandler(hs, payload, d);
    var command := if "command" in payload then payload["command"]
      else if "content" in payload then payload["content"] else "";
    GuardDecides(dangerous, payload, command);
    assert hs[0].execute(payload) == DangerousCmdGuard(dangerous)(payload);
  }
}
