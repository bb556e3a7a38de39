/**
 The engine of session/engine.py. Every call is taken as atomic: it loads a session, changes
 the object and saves it.
 */
module SessionEngine {
  import opened Common
  import opened Dicts
  import opened ClientCache
  import opened Sessions
  import opened SessionRuns

  datatype ChatResult = Done(content: string) | NotDone(error: string) | Threw(message: string)

  function ResultOf(reply: Reply): ChatResult {
    match reply
    case Answer(content) => Done(content)
    case Refused(error) => NotDone(error)
    case Raised(message) => Threw(message)
  }

  class SessionEngine {
    const store: SessionStore
    var clients: seq<SessionId>
    ghost var events: seq<Event>
    ghost var used: set<SessionId>

    /** An engine can start over the files of an earlier one: it has no clients yet. */
    constructor (store: SessionStore, ghost used: set<SessionId>)
      requires WorldOk(World(store.files, store.broken, used))
      ensures Valid() && this.store == store && clients == [] && events == [] && this.used == used
    {
      this.store := store;
      clients := [];
      events := [];
      this.used := used;
    }

    ghost function Now(): World
      reads this, store
    {
      World(store.files, store.broken, used)
    }

    ghost predicate Valid()
      reads this, store
    {
      WorldOk(Now()) && clients == CacheAfter(events, MAX_CACHED_CLIENTS)
    }

    /** `_cache_client` */
    method CacheClient(id: SessionId)
      requires clients == CacheAfter(events, MAX_CACHED_CLIENTS)
      modifies this`clients, this`events
      ensures clients == CacheAfter(events, MAX_CACHED_CLIENTS) && events == old(events) + [Touched(id)]
    {
      events := events + [Touched(id)];
      assert events[..|events| - 1] == old(events);
      clients := MovedToEnd(clients, id);
      while |clients| > MAX_CACHED_CLIENTS
        invariant events == old(events) + [Touched(id)]
        invariant Evicted(clients, MAX_CACHED_CLIENTS) == CacheAfter(events, MAX_CACHED_CLIENTS)
      {
        clients := clients[1..];
      }
    }

    /** A cached client moves to the end, a missing one is made and cached. */
    method Touch(id: SessionId)
      requires clients == CacheAfter(events, MAX_CACHED_CLIENTS)
      modifies this`clients, this`events
      ensures clients == CacheAfter(events, MAX_CACHED_CLIENTS) && events == old(events) + [Touched(id)]
    {
      if id !in clients {
        CacheClient(id);
      } else {
        LruOverRuns(events, MAX_CACHED_CLIENTS);
        clients := MovedToEnd(clients, id);
        events := events + [Touched(id)];
        assert events[..|events| - 1] == old(events);
      }
    }

    method CreateSession(id: SessionId, name: string, config: Config, now: real) returns (s: Session)
      requires Valid() && id !in used
      modifies this, store
      ensures Valid() && Now() == Apply(old(Now()), Create(id, name, config, now))
      ensures events == old(events) + EventsOf(old(Now()), Create(id, name, config, now))
      ensures fresh(s) && s.ToRecord() == NewRecord(id, name, config, [], now)
    {
      CallIsStep(Now(), Create(id, name, config, now));
      s := new Session(NewRecord(id, name, config, [], now));
      store.Save(s, now);
      used := used + {id};
      CacheClient(id);
    }

    /** Load, transition, save: `start`, `pause`, `resume`, `complete`, `request_approval` and
        `approve` differ in the target only, and `fail` also sets the error. */
    method MoveTo(id: SessionId, target: Target, failure: Option<string>, now: real) returns (ok: bool)
      requires Valid()
      modifies store
      ensures Valid() && Now() == Apply(old(Now()), Move(id, target, failure, now))
      ensures ok <==> id in old(store.files) && target in ValidTransitions(old(store.files)[id].state)
    {
      CallIsStep(Now(), Move(id, target, failure, now));
      UsedStay(id);
      var session := store.Load(id);
      if session == null {
        return false;
      }
      var moved := session.Transition(target);
      if !moved {
        return false;
      }
      if failure.Some? {
        session.error := failure.value;
      }
      store.Save(session, now);
      return true;
    }

    /** The id of a stored session is in use and its file is not broken. */
    lemma UsedStay(id: SessionId)
      requires Valid()
      ensures id in store.files ==> used + {id} == used && store.broken - {id} == store.broken
    {
    }

    method Delete(id: SessionId) returns (ok: bool)
      requires Valid()
      modifies this, store
      ensures Valid() && Now() == Apply(old(Now()), Remove(id))
      ensures events == old(events) + EventsOf(old(Now()), Remove(id)) && id !in clients
      ensures ok <==> id in old(store.files) || id in old(store.broken)
    {
      CallIsStep(Now(), Remove(id));
      events := events + [Dropped(id)];
      assert events[..|events| - 1] == old(events);
      clients := Without(clients, id);
      ok := store.Delete(id);
    }

    method Clone(id: SessionId, newId: SessionId, newName: string, now: real) returns (cloned: Session?)
      requires Valid() && newId !in used
      modifies this, store
      ensures Valid() && Now() == Apply(old(Now()), CloneAs(id, newId, newName, now))
      ensures events == old(events) + EventsOf(old(Now()), CloneAs(id, newId, newName, now))
      ensures cloned == null <==> id !in old(store.files)
    {
      CallIsStep(Now(), CloneAs(id, newId, newName, now));
      var source := store.Load(id);
      if source == null {
        return null;
      }
      var name := if newName != "" then newName else source.name + "-clone";
      cloned := CreateSession(newId, name, source.config.(clusterNodes := []), now);
      cloned.messages := source.messages;
      ghost var created, r := Now(), cloned.ToRecord();
      store.Save(cloned, now);
      assert Now() == Put(created, r, now);
      PutTwice(old(Now()), NewRecord(newId, name, r.config, [], now), r, now);
    }

    /** The exchange inside `chat`: the client is asked with the last messages, the new prompt
        among them, and its answer is appended. */
    method Converse(session: Session, prompt: string, client: Client, now: real, later: real) returns (reply: Reply)
      modifies session`messages, session`error
      ensures reply == ReplyTo(old(session.ToRecord()), prompt, client, now)
      ensures !reply.Raised? ==>
                && session.messages == old(session.messages) + Said(prompt, now, later, reply)
                && session.error == if reply.Refused? then reply.error else old(session.error)
    {
      session.AddMessage("user", prompt, now);
      reply := client(LastMessages(session.messages));
      match reply {
        case Answer(content) =>
          session.AddMessage("assistant", content, later);
        case Refused(error) =>
          session.error := error;
        case Raised(_) =>
      }
    }

    /** What `chat` does to the loaded session. */
    method Exchange(session: Session, prompt: string, client: Client, now: real, later: real) returns (reply: Reply)
      requires session.state in {Running, Idle}
      modifies session`state, session`messages, session`error
      ensures reply == ReplyTo(old(session.ToRecord()), prompt, client, now)
      ensures !reply.Raised? ==> session.ToRecord() == Chatted(old(session.ToRecord()), prompt, now, later, reply)
    {
      if session.state == Idle {
        var _ := session.Transition(Running);
      }
      reply := Converse(session, prompt, client, now, later);
    }

    /** `chat`: a client that raises leaves the stored session as it was. */
    method Chat(id: SessionId, prompt: string, client: Client, now: real, later: real) returns (result: ChatResult)
      requires Valid()
      modifies this, store
      ensures Valid() && Now() == Apply(old(Now()), Call.Chat(id, prompt, client, now, later))
      ensures events == old(events) + EventsOf(old(Now()), Call.Chat(id, prompt, client, now, later))
      ensures if id in old(store.files) && old(store.files)[id].state in {Running, Idle}
              then
                match ReplyTo(old(store.files)[id], prompt, client, now)
                case Answer(content) => result == Done(content)
                case Refused(error) => result == NotDone(error)
                case Raised(message) => result == Threw(message)
              else result.NotDone?
    {
      CallIsStep(Now(), Call.Chat(id, prompt, client, now, later));
      UsedStay(id);
      var session := store.Load(id);
      if session == null {
        return NotDone("Session " + id + " not found");
      }
      if session.state != Running && session.state != Idle {
        return NotDone("cannot chat");
      }
      Touch(id);
      var reply := Exchange(session, prompt, client, now, later);
      if !reply.Raised? {
        store.Save(session, later);
      }
      result := ResultOf(reply);
    }

    /** The part of `distribute_session` that concerns the session. */
    method DistributeSession(id: SessionId, nodes: seq<string>, now: real) returns (ok: bool)
      requires Valid()
      modifies store
      ensures Valid() && Now() == Apply(old(Now()), Distribute(id, nodes, now))
      ensures ok <==>
                id in old(store.files) && nodes != [] &&
                ClusterRunning in ValidTransitions(old(store.files)[id].state)
    {
      CallIsStep(Now(), Distribute(id, nodes, now));
      UsedStay(id);
      var session := store.Load(id);
      if session == null || nodes == [] {
        return false;
      }
      session.config := session.config.(clusterNodes := nodes);
      var moved := session.Transition(ClusterRunning);
      if !moved {
        return false;
      }
      store.Save(session, now);
      return true;
    }

    /** The part of `merge_cluster_results` that concerns the session: it is saved even when
        it cannot move to completed. */
    method MergeCluster(id: SessionId, now: real) returns (ok: bool)
      requires Valid()
      modifies store
      ensures Valid() && Now() == Apply(old(Now()), Merge(id, now))
      ensures ok <==> id in old(store.files) && old(store.files)[id].config.clusterNodes != []
    {
      CallIsStep(Now(), Merge(id, now));
      UsedStay(id);
      var session := store.Load(id);
      if session == null || session.config.clusterNodes == [] {
        return false;
      }
      var _ := session.Transition(Completed);
      store.Save(session, now);
      return true;
    }
  }
}
