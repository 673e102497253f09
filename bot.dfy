/** The bot's command handlers over the shared ban ledger. Telegram calls are
    inputs: the caller's member status (`None` when `get_chat_member`
    raised), whether `ban_chat_member` returned, and one `Outcome` per user
    for `/unban_all`. Replies are values; their wording is not modelled. */
module Bot {
  import opened Wrappers
  import opened Tracking
  import Codec
  import opened Render
  import opened Unban

  /** What a handler answers. */
  datatype Reply =
    | GroupOnly                              // the command only works in groups
    | AdminOnly                              // the caller is not an admin
    | AdminCheckFailed                       // `get_chat_member` raised
    | Usage                                  // no argument and no replied-to message
    | InvalidUserId                          // `int(context.args[0])` raised
    | BanFailed                              // `ban_chat_member` raised
    | Banned(user: int)
    | Added(count: nat)
    | Cleared(count: nat)
    | NothingToClear
    | NothingTracked
    | Listing(total: nat, page: Page<int>)
    | UnbanCompleted(summary: Summary)
    | UnbanAborted(processed: nat)           // an unguarded edit raised: nothing is sent

  /** `update.effective_chat.type in ['group', 'supergroup']` */
  predicate IsGroupChat(chatType: string)
    ensures IsGroupChat(chatType) ==> chatType != "private" && chatType != "channel"
  {
    chatType == "group" || chatType == "supergroup"
  }

  /** The admin check every mutating command starts with: `None` lets the
      command go on, otherwise the reply that ends it. */
  function AdminGuard(status: Option<string>): (denial: Option<Reply>)
    ensures denial.None? <==> status == Some("creator") || status == Some("administrator")
    ensures denial.Some? ==> (denial.value == AdminCheckFailed <==> status.None?)
    ensures denial.Some? ==> denial.value.AdminOnly? || denial.value.AdminCheckFailed?
  {
    match status
    case None => Some(AdminCheckFailed)
    case Some(s) => if s == "creator" || s == "administrator" then None else Some(AdminOnly)
  }

  /** The ids `/add_banned` reads from its arguments, in order: each token
      `int()` accepts; the others are skipped. */
  function ParsedIds(args: seq<string>): (ids: seq<int>)
    ensures |ids| <= |args|
  {
    if args == [] then []
    else
      var prev := ParsedIds(args[..|args| - 1]);
      match Codec.ParseInt(args[|args| - 1])
      case None => prev
      case Some(y) => prev + [y]
  }

  /** An id is read exactly when some argument token parses to it. */
  lemma {:induction false} ParsedIdsMembers(args: seq<string>)
    ensures forall y :: y in ParsedIds(args) <==> exists t :: t in args && Codec.ParseInt(t) == Some(y)
  {
    if args != [] {
      var front := args[..|args| - 1];
      ParsedIdsMembers(front);
      assert forall t :: t in args <==> t in front || t == args[|args| - 1];
    }
  }

  /** `order` lists the keys of `db` once each. */
  ghost predicate Indexed(order: seq<int>, db: map<int, seq<int>>) {
    NoDup(order) && forall k :: k in order <==> k in db
  }

  /** No chat's list holds a user twice. */
  ghost predicate AllNoDup(db: map<int, seq<int>>) {
    forall c :: c in db ==> NoDup(db[c])
  }

  /** Replacing an existing chat's list keeps the key order right. */
  lemma {:induction false} IndexedSet(order: seq<int>, db: map<int, seq<int>>, chat: int, v: seq<int>)
    requires Indexed(order, db) && chat in db
    ensures Indexed(order, db[chat := v])
  {
  }

  /** Storing a duplicate-free list keeps every list duplicate-free. */
  lemma {:induction false} AllNoDupSet(db: map<int, seq<int>>, chat: int, v: seq<int>)
    requires AllNoDup(db) && NoDup(v)
    ensures AllNoDup(db[chat := v])
  {
  }

  /** `banned_users_db` with the order of its keys and the file it is saved to. */
  class Ledger {
    /** Chat id to the ids of the users tracked in that chat. */
    var db: map<int, seq<int>>
    /** The dict's insertion order, which `json.dump` follows. */
    var keys: seq<int>
    /** What this process last wrote to the data file; `None` before its first save. */
    var persisted: Option<Codec.JsonObject>

    ghost predicate Valid()
      reads this
    {
      Indexed(keys, db)
    }

    /** No chat tracks a user twice. The commands keep this; a hand-edited
        file can break it, so it is not part of Valid. */
    ghost predicate Tidy()
      reads this
    {
      AllNoDup(db)
    }

    /** A chat's tracked users; empty when the chat has no entry. */
    function Tracked(chat: int): seq<int>
      reads this
    {
      if chat in db then db[chat] else []
    }

    /** `banned_users_db = load_banned_users()` */
    constructor Load(file: Option<Codec.JsonObject>)
      ensures Valid()
      ensures (db, keys) == Codec.Load(file) && persisted == None
    {
      var loaded := Codec.Load(file);
      db, keys := loaded.0, loaded.1;
      persisted := None;
    }

    /** `save_banned_users`: the file then reloads to the ledger as it is. */
    method Save()
      requires Valid()
      modifies this`persisted
      ensures persisted == Some(Codec.Dump(db, keys))
    {
      persisted := Some(Codec.Dump(db, keys));
    }

    /** `if chat_id not in banned_users_db: banned_users_db[chat_id] = []` */
    method EnsureEntry(chat: int)
      requires Valid()
      modifies this`db, this`keys
      ensures Valid() && chat in db
      ensures db == if chat in old(db) then old(db) else old(db)[chat := []]
      ensures keys == if chat in old(db) then old(keys) else old(keys) + [chat]
      ensures Tracked(chat) == old(Tracked(chat))
    {
      if chat !in db {
        assert Insert(keys, chat) == keys + [chat];
        db := db[chat := []];
        keys := keys + [chat];
      }
    }

    /** `/ban`: a replied-to message names the user before any argument does;
        the ledger changes only once `ban_chat_member` has returned, and is
        saved only when the user was not tracked yet. */
    method BanUser(chat: int, chatType: string, status: Option<string>,
                   replyAuthor: Option<int>, args: seq<string>, banSucceeds: bool)
      returns (r: Reply, banCall: Option<int>)
      requires Valid()
      modifies this
      ensures Valid()
      ensures !IsGroupChat(chatType) ==> r == GroupOnly
      ensures IsGroupChat(chatType) && AdminGuard(status).Some? ==> r == AdminGuard(status).value
      ensures IsGroupChat(chatType) && AdminGuard(status).None? ==>
        && (replyAuthor.None? && args == [] ==> r == Usage)
        && (replyAuthor.None? && args != [] && Codec.ParseInt(args[0]).None? ==> r == InvalidUserId)
        && (replyAuthor.Some? ==> banCall == replyAuthor)
        && (replyAuthor.None? && args != [] ==> banCall == Codec.ParseInt(args[0]))
      ensures banCall.Some? ==> IsGroupChat(chatType) && AdminGuard(status).None?
      ensures banCall.Some? ==> r == if banSucceeds then Banned(banCall.value) else BanFailed
      ensures !r.Banned? ==> db == old(db) && keys == old(keys) && persisted == old(persisted)
      ensures r.Banned? ==>
        && db == old(db)[chat := Insert(old(Tracked(chat)), r.user)]
        && keys == (if chat in old(db) then old(keys) else old(keys) + [chat])
        && persisted == (if r.user in old(Tracked(chat)) then old(persisted)
                         else Some(Codec.Dump(db, keys)))
      ensures old(Tidy()) ==> Tidy()
    {
      banCall := None;
      if !IsGroupChat(chatType) {
        return GroupOnly, banCall;
      }
      var denial := AdminGuard(status);
      if denial.Some? {
        return denial.value, banCall;
      }
      if args == [] && replyAuthor.None? {
        return Usage, banCall;
      }
      var user: int;
      if replyAuthor.Some? {
        user := replyAuthor.value;
      } else {
        var parsed := Codec.ParseInt(args[0]);
        if parsed.None? {
          return InvalidUserId, banCall;
        }
        user := parsed.value;
      }
      banCall := Some(user);
      if !banSucceeds {
        return BanFailed, banCall;
      }
      ghost var db0, tracked0 := db, Tracked(chat);
      EnsureEntry(chat);
      if user !in db[chat] {
        IndexedSet(keys, db, chat, db[chat] + [user]);
        db := db[chat := db[chat] + [user]];
        assert db == db0[chat := db[chat]];
        Save();
      } else {
        assert db0[chat := db0[chat]] == db0;
      }
      if AllNoDup(db0) {
        AllNoDupSet(db0, chat, Insert(tracked0, user));
      }
      r := Banned(user);
    }

    /** `/add_banned`: every id not tracked yet is appended once, in argument
        order; the count reported is the number of distinct new ids. The
        chat's entry is created and the file saved even when nothing is added. */
    method AddBanned(chat: int, status: Option<string>, args: seq<string>) returns (r: Reply)
      requires Valid()
      modifies this
      ensures Valid()
      ensures AdminGuard(status).Some? ==>
        r == AdminGuard(status).value && db == old(db) && keys == old(keys) && persisted == old(persisted)
      ensures AdminGuard(status).None? && args == [] ==>
        r == Usage && db == old(db) && keys == old(keys) && persisted == old(persisted)
      ensures AdminGuard(status).None? && args != [] ==>
        && db == old(db)[chat := InsertAll(old(Tracked(chat)), ParsedIds(args))]
        && keys == (if chat in old(db) then old(keys) else old(keys) + [chat])
        && persisted == Some(Codec.Dump(db, keys))
        && r == Added(|Elements(ParsedIds(args)) - Elements(old(Tracked(chat)))|)
      ensures old(Tidy()) ==> Tidy()
    {
      var denial := AdminGuard(status);
      if denial.Some? {
        return denial.value;
      }
      if args == [] {
        return Usage;
      }
      ghost var db0, start := db, Tracked(chat);
      EnsureEntry(chat);
      var list, added := AppendParsed(db[chat], args);
      SetTwice(db0, chat, [], list);
      IndexedSet(keys, db, chat, list);
      db := db[chat := list];
      Save();
      AddedCount(start, ParsedIds(args));
      InsertAllSpec(start, ParsedIds(args));
      if AllNoDup(db0) {
        AllNoDupSet(db0, chat, list);
      }
      r := Added(added);
    }

    /** `/clear_banned`: an existing entry is emptied (the key stays) and the
        old length reported; a chat without an entry is left alone. */
    method ClearBanned(chat: int, status: Option<string>) returns (r: Reply)
      requires Valid()
      modifies this
      ensures Valid() && keys == old(keys)
      ensures AdminGuard(status).Some? ==>
        r == AdminGuard(status).value && db == old(db) && persisted == old(persisted)
      ensures AdminGuard(status).None? && chat in old(db) ==>
        && r == Cleared(|old(db[chat])|)
        && db == old(db)[chat := []]
        && persisted == Some(Codec.Dump(db, keys))
      ensures AdminGuard(status).None? && chat !in old(db) ==>
        r == NothingToClear && db == old(db) && persisted == old(persisted)
      ensures old(Tidy()) ==> Tidy()
    {
      var denial := AdminGuard(status);
      if denial.Some? {
        return denial.value;
      }
      if chat in db {
        var count := |db[chat]|;
        db := db[chat := []];
        Save();
        r := Cleared(count);
      } else {
        r := NothingToClear;
      }
    }

    /** `/list_banned`: needs no admin and changes nothing; shows the first 50
        ids in ledger order and how many more there are. */
    function ListBanned(chat: int): (r: Reply)
      reads this
      ensures r == NothingTracked <==> Tracked(chat) == []
      ensures r != NothingTracked ==>
        && r.Listing?
        && r.total == |Tracked(chat)|
        && r.page == Paginate(Tracked(chat), ListLimit)
    {
      if chat !in db || db[chat] == [] then NothingTracked
      else Listing(|db[chat]|, Paginate(db[chat], ListLimit))
    }

    /** `/unban_all`: walks a copy of the chat's list in order, calling the
        gateway once per user; a user leaves the ledger (and the file is
        saved) right after its unban call returns, and stays when it raised.
        The run ends early when an unguarded failure edit raises. */
    method UnbanAll(chat: int, chatType: string, status: Option<string>, outcomes: seq<Outcome>)
      returns (r: Reply, calls: seq<int>, edits: seq<StatusEdit>)
      requires Valid()
      requires |outcomes| == |Tracked(chat)|
      modifies this
      ensures Valid() && keys == old(keys)
      ensures !IsGroupChat(chatType) ==>
        r == GroupOnly && calls == [] && edits == [] && db == old(db) && persisted == old(persisted)
      ensures IsGroupChat(chatType) && AdminGuard(status).Some? ==>
        r == AdminGuard(status).value && calls == [] && edits == [] && db == old(db) && persisted == old(persisted)
      ensures IsGroupChat(chatType) && AdminGuard(status).None? && old(Tracked(chat)) == [] ==>
        r == NothingTracked && calls == [] && edits == [] && db == old(db) && persisted == old(persisted)
      ensures IsGroupChat(chatType) && AdminGuard(status).None? && old(Tracked(chat)) != [] ==>
        var users := old(Tracked(chat));
        FirstAbort(outcomes) == |users| ==>
        && calls == users
        && db == old(db)[chat := RemoveEach(users, SucceededUsers(users, outcomes))]
        && persisted == (if CountUnbanned(outcomes) == 0 then old(persisted) else Some(Codec.Dump(db, keys)))
        && edits == ProgressLog(users, outcomes, |users|)
        && r == UnbanCompleted(FinalSummary(users, outcomes))
      ensures IsGroupChat(chatType) && AdminGuard(status).None? && old(Tracked(chat)) != [] ==>
        var users := old(Tracked(chat));
        var k := FirstAbort(outcomes) + 1;
        k <= |users| ==>
        && calls == users[..k]
        && db == old(db)[chat := RemoveEach(users, SucceededUsers(users[..k], outcomes[..k]))]
        && persisted == (if CountUnbanned(outcomes[..k]) == 0 then old(persisted) else Some(Codec.Dump(db, keys)))
        && edits == ProgressLog(users[..k], outcomes[..k], |users|)
        && r == UnbanAborted(k)
      ensures old(Tidy()) ==> Tidy()
    {
      calls, edits := [], [];
      if !IsGroupChat(chatType) {
        return GroupOnly, calls, edits;
      }
      var denial := AdminGuard(status);
      if denial.Some? {
        return denial.value, calls, edits;
      }
      if chat !in db || db[chat] == [] {
        return NothingTracked, calls, edits;
      }
      var users := db[chat];
      ghost var db0 := db;
      r, calls, edits := RunUnbans(chat, outcomes);
      if AllNoDup(db0) {
        var stop := FirstAbort(outcomes);
        var done := if stop < |users| then SucceededUsers(users[..stop + 1], outcomes[..stop + 1])
                    else SucceededUsers(users, outcomes);
        RemoveEachNoDup(users, done);
        AllNoDupSet(db0, chat, RemoveEach(users, done));
      }
    }

    /** The loop of `/unban_all` over the snapshot `users = db[chat].copy()`. */
    method RunUnbans(chat: int, outcomes: seq<Outcome>)
      returns (r: Reply, calls: seq<int>, edits: seq<StatusEdit>)
      requires Valid() && chat in db && |outcomes| == |db[chat]|
      modifies this
      ensures Valid() && keys == old(keys)
      ensures var users := old(db[chat]);
        FirstAbort(outcomes) == |users| ==>
        && calls == users
        && db == old(db)[chat := RemoveEach(users, SucceededUsers(users, outcomes))]
        && persisted == (if CountUnbanned(outcomes) == 0 then old(persisted) else Some(Codec.Dump(db, keys)))
        && edits == ProgressLog(users, outcomes, |users|)
        && r == UnbanCompleted(FinalSummary(users, outcomes))
      ensures var users := old(db[chat]);
        var k := FirstAbort(outcomes) + 1;
        k <= |users| ==>
        && calls == users[..k]
        && db == old(db)[chat := RemoveEach(users, SucceededUsers(users[..k], outcomes[..k]))]
        && persisted == (if CountUnbanned(outcomes[..k]) == 0 then old(persisted) else Some(Codec.Dump(db, keys)))
        && edits == ProgressLog(users[..k], outcomes[..k], |users|)
        && r == UnbanAborted(k)
    {
      var total := |db[chat]|;
      var users := db[chat];
      ghost var db0 := db;
      assert db0[chat := db0[chat]] == db0;
      assert users[..0] == [] && outcomes[..0] == [];
      var unbanned, failed := 0, 0;
      var failures: seq<Failure> := [];
      calls, edits := [], [];
      var i := 0;
      while i < total
        invariant 0 <= i <= total
        invariant keys == old(keys)
        invariant NoAbort(outcomes[..i])
        invariant Swept(chat, db0, old(persisted), users, outcomes, i)
        invariant unbanned == CountUnbanned(outcomes[..i]) && failed == CountFailed(outcomes[..i])
        invariant failures == FailureLog(users[..i], outcomes[..i])
        invariant calls == users[..i]
        invariant edits == ProgressLog(users[..i], outcomes[..i], total)
      {
        var aborted;
        aborted, unbanned, failed, failures, calls, edits :=
          Advance(chat, users, outcomes, i, db0, old(persisted), unbanned, failed, failures, calls, edits);
        if aborted {
          return UnbanAborted(i + 1), calls, edits;
        }
        i := i + 1;
      }
      assert users[..total] == users && outcomes[..total] == outcomes;
      assert edits == ProgressLog(users, outcomes, total);
      assert calls == users;
      NoAbortRunsThrough(outcomes);
      r := UnbanCompleted(Summary(total, unbanned, failed, Paginate(failures, FailureLimit)));
    }

    /** The loop body of `/unban_all` for user `i`: its step, and the
        counters and lists the loop carries, at `i + 1`. */
    method Advance(chat: int, users: seq<int>, outcomes: seq<Outcome>, i: nat,
                   ghost db0: map<int, seq<int>>, ghost saved0: Option<Codec.JsonObject>,
                   unbanned: nat, failed: nat, failures: seq<Failure>, calls: seq<int>, edits: seq<StatusEdit>)
      returns (aborted: bool, unbanned': nat, failed': nat, failures': seq<Failure>,
               calls': seq<int>, edits': seq<StatusEdit>)
      requires chat in db0 && |users| == |outcomes| && i < |users|
      requires NoAbort(outcomes[..i])
      requires Swept(chat, db0, saved0, users, outcomes, i)
      requires unbanned == CountUnbanned(outcomes[..i]) && failed == CountFailed(outcomes[..i])
      requires failures == FailureLog(users[..i], outcomes[..i])
      requires calls == users[..i]
      requires edits == ProgressLog(users[..i], outcomes[..i], |users|)
      modifies this
      ensures keys == old(keys)
      ensures Swept(chat, db0, saved0, users, outcomes, i + 1)
      ensures calls' == users[..i + 1]
      ensures edits' == ProgressLog(users[..i + 1], outcomes[..i + 1], |users|)
      ensures aborted ==> FirstAbort(outcomes) == i
      ensures !aborted ==>
        && NoAbort(outcomes[..i + 1])
        && unbanned' == CountUnbanned(outcomes[..i + 1]) && failed' == CountFailed(outcomes[..i + 1])
        && failures' == FailureLog(users[..i + 1], outcomes[..i + 1])
    {
      aborted, unbanned', failed', failures', edits' :=
        UnbanStep(chat, users, outcomes, i, db0, saved0, unbanned, failed, failures, edits);
      calls' := calls + [users[i]];
      assert calls' == users[..i + 1];
      CountStep(outcomes, i);
      if aborted {
        // unbanned_count, failed_count and failed_users are updated before
        // the edit raises, but the exception discards them with the rest
        // of the handler.
        AbortAt(outcomes, i);
      }
    }

    /** The ledger and its file after the first `i` steps of a run over the
        snapshot `users` of `chat`: the users whose unban call returned are
        removed, the key order still indexes the ledger, and the file was
        rewritten once any was. */
    ghost predicate Swept(chat: int, db0: map<int, seq<int>>, saved0: Option<Codec.JsonObject>,
                          users: seq<int>, outcomes: seq<Outcome>, i: nat)
      requires |users| == |outcomes| && i <= |users|
      reads this
    {
      && Valid()
      && db == db0[chat := RemoveEach(users, SucceededUsers(users[..i], outcomes[..i]))]
      && (CountUnbanned(outcomes[..i]) == 0 ==> persisted == saved0)
      && (CountUnbanned(outcomes[..i]) > 0 ==> persisted == Some(Codec.Dump(db, keys)))
    }

    /** The step of user `i` of the snapshot: the unban call, then on return
        the removal, the save and the progress edit, and on an exception the
        failure report, whose edit may raise and end the run (`aborted`). */
    method UnbanStep(chat: int, users: seq<int>, outcomes: seq<Outcome>, i: nat,
                     ghost db0: map<int, seq<int>>, ghost saved0: Option<Codec.JsonObject>,
                     unbanned: nat, failed: nat, failures: seq<Failure>, edits: seq<StatusEdit>)
      returns (aborted: bool, unbanned': nat, failed': nat, failures': seq<Failure>, edits': seq<StatusEdit>)
      requires chat in db0 && |users| == |outcomes| && i < |users|
      requires Swept(chat, db0, saved0, users, outcomes, i)
      requires unbanned == CountUnbanned(outcomes[..i]) && failed == CountFailed(outcomes[..i])
      requires failures == FailureLog(users[..i], outcomes[..i])
      requires edits == ProgressLog(users[..i], outcomes[..i], |users|)
      modifies this
      ensures keys == old(keys)
      ensures Swept(chat, db0, saved0, users, outcomes, i + 1)
      ensures aborted == outcomes[i].ReportFailed?
      ensures edits' == ProgressLog(users[..i + 1], outcomes[..i + 1], |users|)
      ensures !aborted ==>
        && unbanned' == CountUnbanned(outcomes[..i + 1]) && failed' == CountFailed(outcomes[..i + 1])
        && failures' == FailureLog(users[..i + 1], outcomes[..i + 1])
    {
      RemovalStep(users, outcomes, i);
      CountStep(outcomes, i);
      var user, outcome := users[i], outcomes[i];
      if Unbanned(outcome) {
        StillTracked(users, outcomes, i);
        ghost var prev := db;
        RemoveAndSave(chat, user);
        assert db0[chat := prev[chat]][chat := db[chat]] == db0[chat := db[chat]];
      }
      if outcome.ReportFailed? {
        LogStep(users, outcomes, |users|, i);
        return true, unbanned, failed, failures, edits;
      }
      aborted := false;
      unbanned', failed', failures', edits' := Record(users, outcomes, |users|, i, unbanned, failed, failures, edits);
    }

    /** `banned_users_db[chat_id].remove(user_id)` and `save_banned_users()`
        after an unban call returned. */
    method RemoveAndSave(chat: int, user: int)
      requires Valid() && chat in db && user in db[chat]
      modifies this
      ensures Valid() && keys == old(keys)
      ensures db == old(db)[chat := RemoveFirst(old(db[chat]), user)]
      ensures persisted == Some(Codec.Dump(db, keys))
    {
      var remaining := RemoveFirst(db[chat], user);
      IndexedSet(keys, db, chat, remaining);
      db := db[chat := remaining];
      Save();
    }
  }

  /** The tallies, the failure list and the status edit of the step of user
      `i` when that step does not end the run: the counters go up as the
      unban call returned or raised, and the status message shows them. */
  method Record(users: seq<int>, outcomes: seq<Outcome>, total: nat, i: nat,
                unbanned: nat, failed: nat, failures: seq<Failure>, edits: seq<StatusEdit>)
    returns (unbanned': nat, failed': nat, failures': seq<Failure>, edits': seq<StatusEdit>)
    requires |users| == |outcomes| && i < |users| && !outcomes[i].ReportFailed?
    requires unbanned == CountUnbanned(outcomes[..i]) && failed == CountFailed(outcomes[..i])
    requires failures == FailureLog(users[..i], outcomes[..i])
    requires edits == ProgressLog(users[..i], outcomes[..i], total)
    ensures unbanned' == CountUnbanned(outcomes[..i + 1]) && failed' == CountFailed(outcomes[..i + 1])
    ensures failures' == FailureLog(users[..i + 1], outcomes[..i + 1])
    ensures edits' == ProgressLog(users[..i + 1], outcomes[..i + 1], total)
  {
    CountStep(outcomes, i);
    LogStep(users, outcomes, total, i);
    var user, outcome := users[i], outcomes[i];
    unbanned', failed', failures' := unbanned, failed, failures;
    if Unbanned(outcome) {
      unbanned' := unbanned' + 1;
    }
    if outcome.UnbanOk? {
      edits' := edits + [StatusEdit(user, i + 1, total, unbanned', failed', None)];
    } else {
      failed' := failed' + 1;
      var error := Clip(outcome.error, ErrorTextLimit);
      failures' := failures' + [Failure(user, error)];
      edits' := edits + [StatusEdit(user, i + 1, total, unbanned', failed', Some(error))];
    }
  }

  /** The loop of `/add_banned` over one chat's list: each argument that
      parses and is not tracked yet is appended, and counted. */
  method AppendParsed(start: seq<int>, args: seq<string>) returns (list: seq<int>, added: nat)
    ensures list == InsertAll(start, ParsedIds(args))
    ensures added == |list| - |start|
  {
    list, added := start, 0;
    assert args[..0] == [];
    var i := 0;
    while i < |args|
      invariant 0 <= i <= |args|
      invariant list == InsertAll(start, ParsedIds(args[..i]))
      invariant |list| == |start| + added
    {
      AddStep(start, args, i);
      var parsed := Codec.ParseInt(args[i]);
      if parsed.Some? {
        var id := parsed.value;
        if id !in list {
          list := list + [id];
          added := added + 1;
        }
      }
      i := i + 1;
    }
    assert args[..|args|] == args;
  }

  /** One more argument of `/add_banned`: a token that parses is inserted,
      any other changes nothing. */
  lemma {:induction false} AddStep(start: seq<int>, args: seq<string>, i: nat)
    requires i < |args|
    ensures InsertAll(start, ParsedIds(args[..i + 1])) ==
      match Codec.ParseInt(args[i])
      case None => InsertAll(start, ParsedIds(args[..i]))
      case Some(id) => Insert(InsertAll(start, ParsedIds(args[..i])), id)
  {
    var prevIds := ParsedIds(args[..i]);
    assert args[..i + 1][..i] == args[..i];
    match Codec.ParseInt(args[i])
    case None =>
    case Some(id) =>
      assert ParsedIds(args[..i + 1]) == prevIds + [id];
      assert (prevIds + [id])[..|prevIds|] == prevIds;
  }

  /** Creating an entry and then replacing it is replacing it at once. */
  lemma SetTwice(m: map<int, seq<int>>, k: int, v: seq<int>, w: seq<int>)
    ensures (if k in m then m else m[k := v])[k := w] == m[k := w]
  {
  }
}
