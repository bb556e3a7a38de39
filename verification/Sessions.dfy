/**
 Sessions: the life cycle of session/state.py and the persistence of session/store.py, which
 scrubs every message each time a session is saved.
 */
module Sessions {
  import opened SecretScrub
  import opened ClientCache

  datatype SessionState = Idle | Running | WaitingApproval | Paused | ClusterRunning | Completed | Failed

  /** `_VALID_TRANSITIONS` */
  function ValidTransitions(s: SessionState): set<SessionState> {
    match s
    case Idle => {Running, ClusterRunning}
    case Running => {WaitingApproval, Paused, ClusterRunning, Completed, Failed}
    case ClusterRunning => {Running, Paused, Completed, Failed}
    case WaitingApproval => {Running, Paused, Failed}
    case Paused => {Running, ClusterRunning, Failed, Completed}
    case Completed => {}
    case Failed => {Idle}
  }

  /** The table the other way round: from where each state can be entered. */
  lemma EnteredFrom(s: SessionState)
    ensures Idle in ValidTransitions(s) <==> s == Failed
    ensures Running in ValidTransitions(s) <==> s in {Idle, ClusterRunning, WaitingApproval, Paused}
    ensures ClusterRunning in ValidTransitions(s) <==> s in {Idle, Running, Paused}
    ensures WaitingApproval in ValidTransitions(s) <==> s == Running
    ensures Paused in ValidTransitions(s) <==> s in {Running, ClusterRunning, WaitingApproval}
    ensures Completed in ValidTransitions(s) <==> s in {Running, ClusterRunning, Paused}
    ensures Failed in ValidTransitions(s) <==> s in {Running, ClusterRunning, WaitingApproval, Paused}
  {
  }

  datatype Message = Message(role: string, content: string, timestamp: real)

  datatype Config = Config(workingDir: string, model: string, temperature: real, maxTokens: int, securityMode: string,
                           allowedDirs: seq<string>, clusterNodes: seq<string>)

  /** The contents of a session file. */
  datatype Record = Record(sessionId: SessionId, name: string, state: SessionState, config: Config,
                           messages: seq<Message>, createdAt: real, updatedAt: real, error: string)

  // ----- scrubbing on save

  function ScrubMessage(m: Message): Message {
    m.(content := Scrub(m.content))
  }

  function ScrubMessages(ms: seq<Message>): (r: seq<Message>)
    ensures |r| == |ms| && forall i :: 0 <= i < |ms| ==> r[i] == ScrubMessage(ms[i])
  {
    seq(|ms|, i requires 0 <= i < |ms| => ScrubMessage(ms[i]))
  }

  function Scrubbed(r: Record): Record {
    r.(messages := ScrubMessages(r.messages))
  }

  /** Saving a record as it was loaded changes no message. */
  ghost predicate Clean(r: Record) {
    Scrubbed(r) == r
  }

  ghost predicate NoSecrets(ms: seq<Message>) {
    forall m <- ms :: !HasSecret(PATTERNS, m.content)
  }

  /** What has been scrubbed once is clean: this is where the scrubber has to be idempotent. */
  lemma ScrubbedIsClean(r: Record)
    ensures Clean(Scrubbed(r)) && NoSecrets(Scrubbed(r).messages)
  {
    var ms := ScrubMessages(r.messages);
    forall i | 0 <= i < |ms|
      ensures ScrubMessage(ms[i]) == ms[i] && !HasSecret(PATTERNS, ms[i].content)
    {
      ScrubIsIdempotent(PATTERNS, r.messages[i].content);
      ScrubIsComplete(PATTERNS, r.messages[i].content);
    }
    assert ScrubMessages(ms) == ms;
  }

  /** Appending to a clean history and saving it keeps the history as a prefix. */
  lemma CleanPrefixKept(before: seq<Message>, more: seq<Message>)
    requires ScrubMessages(before) == before
    ensures ScrubMessages(before + more) == before + ScrubMessages(more)
  {
    var all := before + more;
    forall i | 0 <= i < |all|
      ensures ScrubMessages(all)[i] == (before + ScrubMessages(more))[i]
    {
      assert i < |before| ==> ScrubMessages(before)[i] == before[i];
    }
  }

  class Session {
    const sessionId: SessionId
    var name: string
    var state: SessionState
    var config: Config
    var messages: seq<Message>
    var createdAt: real
    var updatedAt: real
    var error: string

    constructor (r: Record)
      ensures sessionId == r.sessionId && ToRecord() == r
    {
      sessionId, name, state, config := r.sessionId, r.name, r.state, r.config;
      messages, createdAt, updatedAt, error := r.messages, r.createdAt, r.updatedAt, r.error;
    }

    function ToRecord(): Record
      reads this
    {
      Record(sessionId, name, state, config, messages, createdAt, updatedAt, error)
    }

    predicate CanTransition(target: SessionState)
      reads this
    {
      target in ValidTransitions(state)
    }

    method Transition(target: SessionState) returns (ok: bool)
      modifies this`state
      ensures ok == old(CanTransition(target))
      ensures state == if ok then target else old(state)
    {
      if !CanTransition(target) {
        return false;
      }
      state := target;
      return true;
    }

    method AddMessage(role: string, content: string, now: real)
      modifies this`messages
      ensures messages == old(messages) + [Message(role, content, now)]
    {
      messages := messages + [Message(role, content, now)];
    }
  }

  /** The session files on disk; the broken ones do not parse. */
  class SessionStore {
    var files: map<SessionId, Record>
    var broken: set<SessionId>

    constructor (files: map<SessionId, Record>, broken: set<SessionId>)
      requires files.Keys !! broken
      ensures this.files == files && this.broken == broken
    {
      this.files, this.broken := files, broken;
    }

    method Save(s: Session, now: real)
      modifies this, s`updatedAt
      ensures s.updatedAt == now
      ensures files == old(files)[s.sessionId := Scrubbed(s.ToRecord())] && broken == old(broken) - {s.sessionId}
    {
      s.updatedAt := now;
      files := files[s.sessionId := Scrubbed(s.ToRecord())];
      broken := broken - {s.sessionId};
    }

    /** A missing file and one that does not parse are alike. */
    method Load(id: SessionId) returns (s: Session?)
      ensures s == null <==> id !in files
      ensures s != null ==> fresh(s) && s.ToRecord() == files[id]
    {
      if id !in files {
        return null;
      }
      s := new Session(files[id]);
    }

    /** True when there was a file, whether or not it parses. */
    method Delete(id: SessionId) returns (ok: bool)
      modifies this
      ensures ok == (id in old(files) || id in old(broken))
      ensures files == old(files) - {id} && broken == old(broken) - {id}
    {
      ok := id in files || id in broken;
      files := files - {id};
      broken := broken - {id};
    }
  }

  // ----- what can happen to stored sessions

  /** The session files, the ids of those that do not parse, and all ids ever given out. */
  datatype World = World(files: map<SessionId, Record>, broken: set<SessionId>, used: set<SessionId>)

  ghost predicate WorldOk(w: World) {
    && w.files.Keys <= w.used && w.broken <= w.used && w.files.Keys !! w.broken
    && forall id <- w.files :: w.files[id].sessionId == id && Clean(w.files[id]) && NoSecrets(w.files[id].messages)
  }

  /** Messages are only appended, and a session that has completed or failed stays so. */
  ghost predicate Evolves(r: Record, r': Record) {
    && r.messages <= r'.messages
    && (r.state.Completed? || r.state.Failed? ==> r'.state == r.state)
  }

  /** Sessions evolve, disappear, or are new. */
  ghost predicate Step(w: World, w': World) {
    && WorldOk(w) && WorldOk(w') && w.used <= w'.used
    && forall id <- w'.files :: if id in w.files then Evolves(w.files[id], w'.files[id]) else id !in w.used
  }
}
