/**
 * The bot's store of users and conversations: a `users` table keyed by the
 * Discord user id, holding each user's system prompt and generation
 * parameters, and a `messages` table (see MessageTable) whose rows point at
 * their user and are deleted with it.
 *
 * Every public operation except `Open` first checks that the store is open
 * and otherwise fails with `DatabaseNotOpen`, changing nothing; `Open` fails
 * with `DatabaseAlreadyOpen` when it is. The class invariant `Valid`
 * is what the tables always satisfy; `Contiguous` (every conversation
 * numbered 0, 1, 2, ...) is kept by every operation that starts from it,
 * except `DeleteMessage` given a message that is not stored (such as a copy
 * fetched before an earlier deletion renumbered the conversation): it
 * renumbers the user's later messages all the same and then deletes whichever
 * row now has that id, possibly another user's once the id has been reused,
 * so positions can repeat or skip.
 */
module BotDb {
  import opened Wrappers
  import opened MessageTable

  datatype DbError =
    | DatabaseAlreadyOpen
    | DatabaseNotOpen
    | UserDoesNotExist(userId: int)
    | CouldNotCreateUser(userId: int)
    | ParameterSetError(description: string)

  /**
   * A row of the users table: the system prompt and the generation
   * parameters that have been set, by column name, as the stored value reads.
   */
  datatype UserRow = UserRow(systemPrompt: string, parameters: map<string, string>)

  /** What `get_user` returns. */
  datatype User = User(id: int, systemPrompt: string, parameters: map<string, string>)

  /** The Python type a generation parameter's text is converted with. */
  datatype ParameterType = FloatParameter | IntParameter | BoolParameter

  /**
   * The settable generation parameters and their types; `None` for any other
   * name. "penalize_nl" is the one boolean, and "samplers" is none of them.
   */
  function ParameterTypeOf(name: string): (r: Option<ParameterType>)
    ensures r == Some(BoolParameter) <==> name == "penalize_nl"
    ensures name == "samplers" ==> r == None
  {
    if name in {"temperature", "dynatemp_range", "dynatemp_exponent", "top_p", "min_p", "tfs_z",
                "typical_p", "repeat_penalty", "presence_penalty", "frequency_penalty",
                "mirostat_tau", "mirostat_eta"}
    then Some(FloatParameter)
    else if name in {"top_k", "n_predict", "n_keep", "repeat_last_n", "mirostat", "seed"}
    then Some(IntParameter)
    else if name == "penalize_nl" then Some(BoolParameter)
    else None
  }

  /** The error text for the sampler-order parameter, which is not settable yet. */
  const SamplersNotSettable := "Samplers order configuration is currently WIP"

  /** The value `int(bool(raw))` stores: Python's truth value of a string is "not empty". */
  function StoredBool(raw: string): (r: string)
    ensures r == "0" <==> raw == ""
    ensures r == "0" || r == "1"
  {
    if raw == "" then "0" else "1"
  }

  /**
   * The users table after the global default prompt changes from `from` to
   * `to`: every user whose prompt was the old default gets the new one.
   */
  function FollowDefault(users: map<int, UserRow>, from: string, to: string): (r: map<int, UserRow>)
    ensures r.Keys == users.Keys
    ensures forall u :: u in users ==>
              && r[u].parameters == users[u].parameters
              && (users[u].systemPrompt == from ==> r[u].systemPrompt == to)
              && (users[u].systemPrompt != from ==> r[u].systemPrompt == users[u].systemPrompt)
  {
    map u | u in users :: if users[u].systemPrompt == from then users[u].(systemPrompt := to) else users[u]
  }

  /** Re-applying the current default (as `open` does) changes no user. */
  lemma FollowSameDefault(users: map<int, UserRow>, prompt: string)
    ensures FollowDefault(users, prompt, prompt) == users
  {
    var r := FollowDefault(users, prompt, prompt);
    forall u | u in users ensures r[u] == users[u] {
      assert r[u].systemPrompt == users[u].systemPrompt;
    }
  }

  /** The users who follow a given prompt. */
  function Followers(users: map<int, UserRow>, prompt: string): set<int>
  {
    set u | u in users && users[u].systemPrompt == prompt
  }

  class BotDatabase {
    var isOpen: bool
    var defaultSystemPrompt: string
    var users: map<int, UserRow>
    var messages: seq<Message>

    /**
     * Row ids only grow, each conversation is in position order along the
     * table, and every message belongs to a stored user.
     */
    ghost predicate Valid()
      reads this
    {
      && IdsIncreasing(messages)
      && PositionsSorted(messages)
      && forall k :: 0 <= k < |messages| ==> messages[k].userId in users
    }

    /** A store on a new database file, opened at once when a path is given. */
    constructor (openAtOnce: bool, defaultSystemPrompt: string)
      ensures Valid()
      ensures isOpen == openAtOnce && this.defaultSystemPrompt == defaultSystemPrompt
      ensures users == map[] && messages == []
    {
      isOpen := openAtOnce;
      this.defaultSystemPrompt := defaultSystemPrompt;
      users := map[];
      messages := [];
    }

    method Open() returns (r: Result<(), DbError>)
      requires Valid()
      modifies this
      ensures Valid() && isOpen
      ensures r == if old(isOpen) then Err(DatabaseAlreadyOpen) else Ok(())
      ensures users == old(users) && messages == old(messages) && defaultSystemPrompt == old(defaultSystemPrompt)
    {
      if isOpen {
        return Err(DatabaseAlreadyOpen);
      }
      isOpen := true;
      var _ := ChangeGlobalDefaultSystemPrompt(defaultSystemPrompt);
      FollowSameDefault(old(users), old(defaultSystemPrompt));
      r := Ok(());
    }

    method Close() returns (r: Result<(), DbError>)
      requires Valid()
      modifies this
      ensures Valid() && !isOpen
      ensures r == if old(isOpen) then Ok(()) else Err(DatabaseNotOpen)
      ensures users == old(users) && messages == old(messages) && defaultSystemPrompt == old(defaultSystemPrompt)
    {
      if !isOpen {
        return Err(DatabaseNotOpen);
      }
      isOpen := false;
      r := Ok(());
    }

    /**
     * Moves every user who follows the default prompt to the new one and
     * returns how many users that was.
     */
    method ChangeGlobalDefaultSystemPrompt(newPrompt: string) returns (r: Result<nat, DbError>)
      requires Valid()
      modifies this
      ensures Valid() && isOpen == old(isOpen) && messages == old(messages)
      ensures !old(isOpen) ==> r == Err(DatabaseNotOpen) && users == old(users) && defaultSystemPrompt == old(defaultSystemPrompt)
      ensures old(isOpen) ==>
                && r == Ok(|Followers(old(users), old(defaultSystemPrompt))|)
                && users == FollowDefault(old(users), old(defaultSystemPrompt), newPrompt)
                && defaultSystemPrompt == newPrompt
    {
      if !isOpen {
        return Err(DatabaseNotOpen);
      }
      var followers := set u | u in users && users[u].systemPrompt == defaultSystemPrompt;
      users := map u | u in users :: if users[u].systemPrompt == defaultSystemPrompt then users[u].(systemPrompt := newPrompt) else users[u];
      defaultSystemPrompt := newPrompt;
      r := Ok(|followers|);
    }

    method GetUser(userId: int) returns (r: Result<Option<User>, DbError>)
      ensures !isOpen ==> r == Err(DatabaseNotOpen)
      ensures isOpen ==> r.Ok? && (r.value.Some? <==> userId in users)
      ensures isOpen && userId in users ==>
                r.value.value == User(userId, users[userId].systemPrompt, users[userId].parameters)
    {
      if !isOpen {
        return Err(DatabaseNotOpen);
      }
      if userId in users {
        var row := users[userId];
        return Ok(Some(User(userId, row.systemPrompt, row.parameters)));
      }
      r := Ok(None);
    }

    method UserExists(userId: int) returns (r: Result<bool, DbError>)
      ensures r == if isOpen then Ok(userId in users) else Err(DatabaseNotOpen)
    {
      if !isOpen {
        return Err(DatabaseNotOpen);
      }
      r := Ok(userId in users);
    }

    /**
     * Inserts a user with the given prompt, or the default one; answers
     * false, changing nothing, when the id is taken.
     */
    method AddUser(userId: int, systemPrompt: Option<string>) returns (r: Result<bool, DbError>)
      requires Valid()
      modifies this
      ensures Valid() && isOpen == old(isOpen) && defaultSystemPrompt == old(defaultSystemPrompt)
      ensures messages == old(messages)
      ensures !old(isOpen) ==> r == Err(DatabaseNotOpen) && users == old(users)
      ensures old(isOpen) ==> r == Ok(userId !in old(users))
      ensures old(isOpen) && userId in old(users) ==> users == old(users)
      ensures old(isOpen) && userId !in old(users) ==>
                users == old(users)[userId := UserRow(systemPrompt.UnwrapOr(defaultSystemPrompt), map[])]
    {
      if !isOpen {
        return Err(DatabaseNotOpen);
      }
      if userId in users {
        return Ok(false);
      }
      users := users[userId := UserRow(systemPrompt.UnwrapOr(defaultSystemPrompt), map[])];
      r := Ok(true);
    }

    method GetOrCreateUser(userId: int, systemPrompt: Option<string>) returns (r: Result<User, DbError>)
      requires Valid()
      modifies this
      ensures Valid() && isOpen == old(isOpen) && defaultSystemPrompt == old(defaultSystemPrompt)
      ensures messages == old(messages)
      ensures !old(isOpen) ==> r == Err(DatabaseNotOpen) && users == old(users)
      ensures old(isOpen) && userId in old(users) ==>
                && users == old(users)
                && r == Ok(User(userId, users[userId].systemPrompt, users[userId].parameters))
      ensures old(isOpen) && userId !in old(users) ==>
                && users == old(users)[userId := UserRow(systemPrompt.UnwrapOr(defaultSystemPrompt), map[])]
                && r == Ok(User(userId, systemPrompt.UnwrapOr(defaultSystemPrompt), map[]))
    {
      if !isOpen {
        return Err(DatabaseNotOpen);
      }
      var exists_ := UserExists(userId);
      if !exists_.value {
        var _ := AddUser(userId, systemPrompt);
      }
      var user := GetUser(userId);
      r := Ok(user.value.value);
    }

    /** Deletes a user and, through the foreign key, all of their messages. */
    method DeleteUser(userId: int) returns (r: Result<bool, DbError>)
      requires Valid()
      modifies this
      ensures Valid() && isOpen == old(isOpen) && defaultSystemPrompt == old(defaultSystemPrompt)
      ensures !old(isOpen) ==> r == Err(DatabaseNotOpen) && users == old(users) && messages == old(messages)
      ensures old(isOpen) ==>
                && r == Ok(userId in old(users))
                && users == old(users) - {userId}
                && messages == Where(old(messages), NotOfUser(userId))
                && forall u :: UserMessages(messages, u) == if u == userId then [] else old(UserMessages(messages, u))
      ensures old(Contiguous(messages)) ==> Contiguous(messages)
    {
      if !isOpen {
        return Err(DatabaseNotOpen);
      }
      r := Ok(userId in users);
      UserRemovalKeepsOrder(messages, userId, users.Keys);
      DeleteUserRows(messages, userId);
      var remaining := Where(messages, NotOfUser(userId));
      assert forall k :: 0 <= k < |remaining| ==> remaining[k].userId in users - {userId};
      users := users - {userId};
      messages := remaining;
    }

    /**
     * Sets a user's prompt and rewrites the system messages of their
     * conversation with it. A missing user is created with that prompt, or
     * reported, as `createIfMissing` says.
     */
    method ChangeUserSystemPrompt(userId: int, newPrompt: string, createIfMissing: bool) returns (r: Result<(), DbError>)
      requires Valid()
      modifies this
      ensures Valid() && isOpen == old(isOpen) && defaultSystemPrompt == old(defaultSystemPrompt)
      ensures !old(isOpen) ==> r == Err(DatabaseNotOpen) && users == old(users) && messages == old(messages)
      ensures old(isOpen) && userId !in old(users) && !createIfMissing ==>
                r == Err(UserDoesNotExist(userId)) && users == old(users) && messages == old(messages)
      ensures old(isOpen) && userId !in old(users) && createIfMissing ==>
                r == Ok(()) && users == old(users)[userId := UserRow(newPrompt, map[])] && messages == old(messages)
      ensures old(isOpen) && userId in old(users) ==>
                && r == Ok(())
                && users == old(users)[userId := old(users)[userId].(systemPrompt := newPrompt)]
                && messages == WithSystemPrompt(old(messages), userId, newPrompt)
                && (forall u :: u != userId ==> UserMessages(messages, u) == old(UserMessages(messages, u)))
                && UserMessages(messages, userId) == WithSystemPrompt(old(UserMessages(messages, userId)), userId, newPrompt)
      ensures old(Contiguous(messages)) ==> Contiguous(messages)
    {
      if !isOpen {
        return Err(DatabaseNotOpen);
      }
      var exists_ := UserExists(userId);
      if !exists_.value {
        if createIfMissing {
          var _ := AddUser(userId, Some(newPrompt));
          return Ok(());
        }
        return Err(UserDoesNotExist(userId));
      }
      ghost var ms0 := messages;
      users := users[userId := users[userId].(systemPrompt := newPrompt)];
      messages := WithSystemPrompt(messages, userId, newPrompt);
      SystemPromptRewrite(ms0, userId, newPrompt);
      ghost var c := Contiguous(ms0);
      if c {
        ContiguousSameKeys(ms0, messages);
      }
      r := Ok(());
    }

    /**
     * Parses and stores one generation parameter, returning its stored value
     * before and after. `converted` is what Python's float() or int() makes of
     * `rawValue` for a parameter of that type (`None` when it raises
     * ValueError); a boolean parameter stores whether the text is non-empty.
     * A missing user is created first, with the default prompt, even when the
     * name then turns out to be wrong.
     */
    method SetUserGenerationParameter(userId: int, name: string, rawValue: string, converted: Option<string>,
                                      createIfMissing: bool)
      returns (r: Result<(Option<string>, Option<string>), DbError>)
      requires Valid()
      modifies this
      ensures Valid() && isOpen == old(isOpen) && defaultSystemPrompt == old(defaultSystemPrompt)
      ensures messages == old(messages)
      ensures !old(isOpen) ==> r == Err(DatabaseNotOpen) && users == old(users)
      ensures old(isOpen) && userId !in old(users) && !createIfMissing ==>
                r == Err(UserDoesNotExist(userId)) && users == old(users)
      ensures old(isOpen) && (userId in old(users) || createIfMissing) ==>
                var before := if userId in old(users) then old(users)[userId] else UserRow(defaultSystemPrompt, map[]);
                var stored := if ParameterTypeOf(name) == Some(BoolParameter) then Some(StoredBool(rawValue)) else converted;
                && users.Keys == old(users).Keys + {userId}
                && (forall u :: u in old(users) && u != userId ==> users[u] == old(users)[u])
                && (name == "samplers" ==>
                      r == Err(ParameterSetError(SamplersNotSettable)) && users[userId] == before)
                && (name != "samplers" && ParameterTypeOf(name).None? ==>
                      r == Err(ParameterSetError("Unknown parameter: " + name)) && users[userId] == before)
                && (ParameterTypeOf(name).Some? && stored.None? ==>
                      r == Err(ParameterSetError("Invalid " + name + ": " + rawValue)) && users[userId] == before)
                && (ParameterTypeOf(name).Some? && stored.Some? ==>
                      && r == Ok((if name in before.parameters then Some(before.parameters[name]) else None, stored))
                      && users[userId] == before.(parameters := before.parameters[name := stored.value]))
    {
      if !isOpen {
        return Err(DatabaseNotOpen);
      }
      var exists_ := UserExists(userId);
      if !exists_.value {
        if createIfMissing {
          var _ := AddUser(userId, None);
        } else {
          return Err(UserDoesNotExist(userId));
        }
      }
      match ParameterTypeOf(name)
      case Some(kind) =>
        var row := users[userId];
        var oldValue := if name in row.parameters then Some(row.parameters[name]) else None;
        var newValue := if kind == BoolParameter then Some(StoredBool(rawValue)) else converted;
        if newValue.None? {
          return Err(ParameterSetError("Invalid " + name + ": " + rawValue));
        }
        users := users[userId := row.(parameters := row.parameters[name := newValue.value])];
        r := Ok((oldValue, newValue));
      case None =>
        if name == "samplers" {
          return Err(ParameterSetError(SamplersNotSettable));
        }
        r := Err(ParameterSetError("Unknown parameter: " + name));
    }

    method UserHasMessages(userId: int) returns (r: Result<bool, DbError>)
      ensures !isOpen ==> r == Err(DatabaseNotOpen)
      ensures isOpen ==> r == Ok(exists k :: 0 <= k < |messages| && messages[k].userId == userId)
    {
      if !isOpen {
        return Err(DatabaseNotOpen);
      }
      r := Ok(MaxPosition(messages, userId).Some?);
    }

    /** The row with the given id, if any. */
    method GetMessage(id: int) returns (r: Result<Option<Message>, DbError>)
      ensures !isOpen ==> r == Err(DatabaseNotOpen)
      ensures isOpen ==> r.Ok? && (r.value.None? <==> !HasId(messages, id))
      ensures isOpen && r.value.Some? ==> r.value.value in messages && r.value.value.id == id
    {
      if !isOpen {
        return Err(DatabaseNotOpen);
      }
      r := Ok(FetchOne(messages, WithId(id)));
    }

    /** A user's conversation, in position order (which the invariant makes table order). */
    method GetUserMessages(userId: int) returns (r: Result<seq<Message>, DbError>)
      requires Valid()
      ensures !isOpen ==> r == Err(DatabaseNotOpen)
      ensures isOpen ==> r == Ok(UserMessages(messages, userId))
      ensures isOpen ==> forall m :: m in r.value <==> m in messages && m.userId == userId
      ensures isOpen ==> forall i, j :: 0 <= i < j < |r.value| ==> r.value[i].position <= r.value[j].position
      ensures isOpen && Contiguous(messages) ==> forall i :: 0 <= i < |r.value| ==> r.value[i].position == i
    {
      if !isOpen {
        return Err(DatabaseNotOpen);
      }
      var found: seq<Message> := [];
      for k := 0 to |messages|
        invariant found == UserMessages(messages[..k], userId)
      {
        assert messages[..k + 1] == messages[..k] + [messages[k]];
        WhereAppend(messages[..k], messages[k], OfUser(userId));
        if messages[k].userId == userId {
          found := found + [messages[k]];
        }
      }
      assert messages[..|messages|] == messages;
      WhereMembers(messages, OfUser(userId));
      UserMessagesSorted(messages, userId);
      r := Ok(found);
    }

    /**
     * The message at a position of a user's conversation: the id is looked
     * up first and the row is then fetched by id.
     */
    method GetNthUserMessage(userId: int, position: int) returns (r: Result<Option<Message>, DbError>)
      requires Valid()
      ensures !isOpen ==> r == Err(DatabaseNotOpen)
      ensures isOpen ==> r == Ok(FetchOne(messages, At(userId, position)))
      ensures isOpen && Contiguous(messages) ==>
                r.value == if 0 <= position < |UserMessages(messages, userId)|
                           then Some(UserMessages(messages, userId)[position]) else None
    {
      if !isOpen {
        return Err(DatabaseNotOpen);
      }
      var row := FetchOne(messages, At(userId, position));
      if row.None? {
        r := Ok(None);
      } else {
        r := GetMessage(row.value.id);
        SameIdSameRow(messages, r.value.value, row.value);
      }
      ghost var c := Contiguous(messages);
      if c {
        var l := UserMessages(messages, userId);
        WhereMembers(messages, OfUser(userId));
        if 0 <= position < |l| {
          assert l[position] in messages;
        }
        if row.Some? {
          assert row.value in l;
          var j :| 0 <= j < |l| && l[j] == row.value;
        }
      }
    }

    /**
     * Appends a message to a user's conversation, one past its highest
     * position, creating the user when allowed. `now` stands for the clock
     * read when no timestamp is given. The new row's id is one past the
     * largest, as SQLite chooses it.
     */
    method AddMessage(userId: int, role: ChatRole, text: string, timestamp: Option<int>, now: int, createIfMissing: bool)
      returns (r: Result<(), DbError>)
      requires Valid()
      modifies this
      ensures Valid() && isOpen == old(isOpen) && defaultSystemPrompt == old(defaultSystemPrompt)
      ensures !old(isOpen) ==> r == Err(DatabaseNotOpen) && users == old(users) && messages == old(messages)
      ensures old(isOpen) && userId !in old(users) && !createIfMissing ==>
                r == Err(UserDoesNotExist(userId)) && users == old(users) && messages == old(messages)
      ensures old(isOpen) && (userId in old(users) || createIfMissing) ==>
                && r == Ok(())
                && users == (if userId in old(users) then old(users) else old(users)[userId := UserRow(defaultSystemPrompt, map[])])
                && messages == old(messages) + [Message(NextRowId(old(messages)), userId, timestamp.UnwrapOr(now),
                                                        NextPosition(old(messages), userId), role, text)]
      ensures old(Contiguous(messages)) ==> Contiguous(messages)
      ensures old(Contiguous(messages)) && old(isOpen) && r.Ok? ==>
                UserMessages(messages, userId) == old(UserMessages(messages, userId)) + [messages[|messages| - 1]]
                && messages[|messages| - 1].position == old(|UserMessages(messages, userId)|)
    {
      if !isOpen {
        return Err(DatabaseNotOpen);
      }
      var exists_ := UserExists(userId);
      if !exists_.value {
        if createIfMissing {
          var added := AddUser(userId, None);
          if !added.value {
            return Err(CouldNotCreateUser(userId));
          }
        } else {
          return Err(UserDoesNotExist(userId));
        }
      }
      var when := timestamp.UnwrapOr(now);
      var position := NextUserMessagePosition(userId);
      var row := Message(NextRowId(messages), userId, when, position.value, role, text);
      AppendNextRow(messages, row);
      assert forall k :: 0 <= k < |messages| ==> (messages + [row])[k] == messages[k];
      messages := messages + [row];
      r := Ok(());
    }

    /** One past the highest position of the user's messages, 0 when they have none. */
    method NextUserMessagePosition(userId: int) returns (r: Result<int, DbError>)
      ensures !isOpen ==> r == Err(DatabaseNotOpen)
      ensures isOpen ==> r == Ok(NextPosition(messages, userId))
      ensures isOpen ==> forall k :: 0 <= k < |messages| && messages[k].userId == userId ==> messages[k].position < r.value
      ensures isOpen && Contiguous(messages) ==> r.value == |UserMessages(messages, userId)|
    {
      if !isOpen {
        return Err(DatabaseNotOpen);
      }
      ghost var c := Contiguous(messages);
      if c {
        NextPositionIsCount(messages, userId);
      }
      r := Ok(NextPosition(messages, userId));
    }

    /** The ids and positions of a user's messages after `from`, in position order. */
    method GetUserMessagesIdsAndPositionFrom(userId: int, from: int) returns (r: Result<seq<(int, int)>, DbError>)
      requires Valid()
      ensures !isOpen ==> r == Err(DatabaseNotOpen)
      ensures isOpen ==> r == Ok(IdPositions(Where(messages, LaterThan(userId, from))))
      ensures isOpen ==> SortedPast(r.value, from)
    {
      if !isOpen {
        return Err(DatabaseNotOpen);
      }
      var found: seq<(int, int)> := [];
      for k := 0 to |messages|
        invariant found == IdPositions(Where(messages[..k], LaterThan(userId, from)))
      {
        ghost var before := Where(messages[..k], LaterThan(userId, from));
        if messages[k].userId == userId && messages[k].position > from {
          found := found + [(messages[k].id, messages[k].position)];
        }
        assert found == IdPositions(Where(messages[..k + 1], LaterThan(userId, from))) by {
          assert messages[..k + 1] == messages[..k] + [messages[k]];
          WhereAppend(messages[..k], messages[k], LaterThan(userId, from));
          IdPositionsAppend(before, messages[k]);
        }
      }
      assert messages[..|messages|] == messages;
      assert found == IdPositions(Where(messages, LaterThan(userId, from)));
      LaterPositionsSorted(messages, userId, from);
      r := Ok(found);
    }

    /**
     * Deletes a message: the later messages of its user move down one
     * position (one update per row, by id), then the row with its id goes.
     * When the message is a stored one, the conversation stays numbered
     * 0, 1, 2, ... and no other user's conversation changes.
     */
    method DeleteMessage(m: Message) returns (r: Result<(), DbError>)
      requires Valid()
      modifies this
      ensures Valid() && isOpen == old(isOpen) && defaultSystemPrompt == old(defaultSystemPrompt)
      ensures users == old(users)
      ensures !old(isOpen) ==> r == Err(DatabaseNotOpen) && messages == old(messages)
      ensures old(isOpen) ==>
                r == Ok(()) && messages == Where(Renumbered(old(messages), m.userId, m.position), NotId(m.id))
      ensures old(isOpen) && old(m in messages) && old(Contiguous(messages)) ==>
                && Contiguous(messages)
                && (forall u :: u != m.userId ==> UserMessages(messages, u) == old(UserMessages(messages, u)))
                && UserMessages(messages, m.userId)
                   == ConversationWithout(old(UserMessages(messages, m.userId)), m.userId, m.position)
                && |UserMessages(messages, m.userId)| == old(|UserMessages(messages, m.userId)|) - 1
    {
      if !isOpen {
        return Err(DatabaseNotOpen);
      }
      ghost var ms0 := messages;
      ghost var later := Where(ms0, LaterThan(m.userId, m.position));
      var toUpdate := GetUserMessagesIdsAndPositionFrom(m.userId, m.position);
      var updates := seq(|toUpdate.value|, i requires 0 <= i < |toUpdate.value| => (toUpdate.value[i].0, toUpdate.value[i].1 - 1));
      LaterRows(ms0, m.userId, m.position);
      ghost var done: set<int> := {};
      for i := 0 to |updates|
        invariant done == RowIds(later[..i])
        invariant messages == MovedDown(ms0, done)
        invariant users == old(users) && isOpen && defaultSystemPrompt == old(defaultSystemPrompt)
      {
        assert updates[i] == (later[i].id, later[i].position - 1);
        assert later[..i + 1] == later[..i] + [later[i]];
        RowIdsAppend(later[..i], later[i]);
        MovedDownStep(ms0, done, later[i]);
        messages := WithPosition(messages, updates[i].0, updates[i].1);
        done := done + {later[i].id};
      }
      assert later[..|updates|] == later;
      MovedDownLater(ms0, m.userId, m.position);
      messages := Where(messages, NotId(m.id));
      assert forall k :: 0 <= k < |ms0| ==> ms0[k].userId in users.Keys;
      DeletionKeepsOrder(ms0, m, users.Keys);
      ghost var c := Contiguous(ms0) && m in ms0;
      if c {
        DeleteStoredMessage(ms0, m);
      }
      r := Ok(());
    }

    /** Deletes the message with the given id; false when there is none. */
    method DeleteMessageById(id: int) returns (r: Result<bool, DbError>)
      requires Valid()
      modifies this
      ensures Valid() && isOpen == old(isOpen) && defaultSystemPrompt == old(defaultSystemPrompt)
      ensures users == old(users)
      ensures !old(isOpen) ==> r == Err(DatabaseNotOpen) && messages == old(messages)
      ensures old(isOpen) ==> r == Ok(old(HasId(messages, id)))
      ensures old(isOpen) && !old(HasId(messages, id)) ==> messages == old(messages)
      ensures old(isOpen) && old(HasId(messages, id)) ==>
                exists x :: old(x in messages) && x.id == id
                            && messages == old(Where(Renumbered(messages, x.userId, x.position), NotId(id)))
      ensures old(Contiguous(messages)) ==> Contiguous(messages)
    {
      if !isOpen {
        return Err(DatabaseNotOpen);
      }
      var found := GetMessage(id);
      if found.value.Some? {
        ghost var x := found.value.value;
        var _ := DeleteMessage(found.value.value);
        assert old(x in messages);
        return Ok(true);
      }
      r := Ok(false);
    }

    /** Deletes the message at a position of a user's conversation; false when there is none. */
    method DeleteUserMessageByPosition(userId: int, position: int) returns (r: Result<bool, DbError>)
      requires Valid()
      modifies this
      ensures Valid() && isOpen == old(isOpen) && defaultSystemPrompt == old(defaultSystemPrompt)
      ensures users == old(users)
      ensures !old(isOpen) ==> r == Err(DatabaseNotOpen) && messages == old(messages)
      ensures old(isOpen) ==> r == Ok(old(FetchOne(messages, At(userId, position))).Some?)
      ensures old(isOpen) && old(FetchOne(messages, At(userId, position))).None? ==> messages == old(messages)
      ensures old(isOpen) && old(FetchOne(messages, At(userId, position))).Some? ==>
                messages == old(Where(Renumbered(messages, userId, position), NotId(FetchOne(messages, At(userId, position)).value.id)))
      ensures old(isOpen) && old(Contiguous(messages)) ==>
                && Contiguous(messages)
                && (forall u :: u != userId ==> UserMessages(messages, u) == old(UserMessages(messages, u)))
                && UserMessages(messages, userId)
                   == ConversationWithout(old(UserMessages(messages, userId)), userId, position)
    {
      if !isOpen {
        return Err(DatabaseNotOpen);
      }
      var found := GetNthUserMessage(userId, position);
      if found.value.Some? {
        var _ := DeleteMessage(found.value.value);
        return Ok(true);
      }
      r := Ok(false);
    }

    /** Deletes a user's whole conversation; the user stays. */
    method ClearUserMessages(userId: int) returns (r: Result<(), DbError>)
      requires Valid()
      modifies this
      ensures Valid() && isOpen == old(isOpen) && defaultSystemPrompt == old(defaultSystemPrompt)
      ensures users == old(users)
      ensures !old(isOpen) ==> r == Err(DatabaseNotOpen) && messages == old(messages)
      ensures old(isOpen) ==>
                && r == Ok(())
                && messages == Where(old(messages), NotOfUser(userId))
                && forall u :: UserMessages(messages, u) == if u == userId then [] else old(UserMessages(messages, u))
      ensures old(isOpen) && userId !in old(users) ==> messages == old(messages)
      ensures old(Contiguous(messages)) ==> Contiguous(messages)
    {
      if !isOpen {
        return Err(DatabaseNotOpen);
      }
      UserRemovalKeepsOrder(messages, userId, users.Keys);
      DeleteUserRows(messages, userId);
      messages := Where(messages, NotOfUser(userId));
      r := Ok(());
    }
  }
}
