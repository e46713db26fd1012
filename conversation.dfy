/**
 * `LLMConversationHistory` of the bot's entry module: the list of role-tagged
 * messages sent to the model, which always starts with the system prompt and
 * to which user prompts are appended.
 */
module Conversation {

  /** One `{"role": ..., "content": ...}` dictionary of the history. */
  datatype Entry = Entry(role: string, content: string)

  class ConversationHistory {
    var systemPrompt: string
    var userRoleName: string
    var systemRoleName: string
    var history: seq<Entry>

    /** The history opens with the system prompt, and every later entry is a user prompt. */
    ghost predicate Valid()
      reads this
    {
      && |history| >= 1
      && history[0] == Entry(systemRoleName, systemPrompt)
      && forall i :: 1 <= i < |history| ==> history[i].role == userRoleName
    }

    /** The one-entry history that a fresh or cleaned conversation holds. */
    function InitPrompt(): (r: seq<Entry>)
      reads this
      ensures |r| == 1 && r[0].role == systemRoleName && r[0].content == systemPrompt
    {
      [Entry(systemRoleName, systemPrompt)]
    }

    /** The roles default to "user" and "system" in the source; here the caller passes them. */
    constructor (systemPrompt: string, userRoleName: string, systemRoleName: string)
      ensures Valid()
      ensures this.systemPrompt == systemPrompt && this.userRoleName == userRoleName
      ensures this.systemRoleName == systemRoleName
      ensures history == [Entry(systemRoleName, systemPrompt)]
    {
      this.systemPrompt := systemPrompt;
      this.userRoleName := userRoleName;
      this.systemRoleName := systemRoleName;
      new;
      Clean();
    }

    /** Appends one user entry, keeps every earlier entry, and returns the whole history. */
    method AddUserPrompt(prompt: string) returns (r: seq<Entry>)
      requires Valid()
      modifies this`history
      ensures Valid()
      ensures history == old(history) + [Entry(userRoleName, prompt)]
      ensures |history| == |old(history)| + 1 && history[..|old(history)|] == old(history)
      ensures r == history
    {
      history := history + [Entry(userRoleName, prompt)];
      r := history;
    }

    /** Forgets every user prompt: only the system prompt remains. */
    method Clean()
      modifies this`history
      ensures Valid()
      ensures history == [Entry(systemRoleName, systemPrompt)]
    {
      history := InitPrompt();
    }
  }
}
