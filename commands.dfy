/**
 * The command-line parsing of the bot's `on_message` handler: a message from
 * anyone but the bot itself that starts with the prefix has the prefix
 * removed, is trimmed, and is cut at its first space into a command and an
 * optional argument; the command then selects an inference request or the
 * help text.
 */
module Commands {
  import opened Wrappers
  import opened PyStr

  const BotPrefix := "$"
  const InferenceCommand := "llm"
  const HelpCommand := "llm-help"

  /** A parsed command line: the word after the prefix and, after the first space, the rest. */
  datatype CommandLine = CommandLine(command: string, argument: Option<string>)

  /** What the handler goes on to do with a message. */
  datatype Action = Ignore | RequestCompletion(prompt: Option<string>) | ShowHelp

  /** Parses a message's text; `None` when the handler returns without looking at it. */
  function ParseCommandLine(fromBotItself: bool, content: string): (r: Option<CommandLine>)
    ensures r == None <==> fromBotItself || !StartsWith(content, BotPrefix)
    ensures r.Some? ==>
              var text := Strip(content[|BotPrefix|..]);
              && (r.value.argument == None <==> ' ' !in text)
              && (r.value.argument == None ==> r.value.command == text)
              && (r.value.argument.Some? ==>
                    r.value.command + " " + r.value.argument.value == text && ' ' !in r.value.command)
  {
    if fromBotItself || !StartsWith(content, BotPrefix) then None
    else
      var text := Strip(RemovePrefix(content, BotPrefix));
      var parts := SplitOnceAtSpace(text);
      if |parts| == 1 then Some(CommandLine(parts[0], None))
      else Some(CommandLine(parts[0], Some(parts[1])))
  }

  /** The two `if`s of the handler: the inference command with its argument, the help command, or nothing. */
  function Dispatch(fromBotItself: bool, content: string): (a: Action)
    ensures a != Ignore <==>
              ParseCommandLine(fromBotItself, content).Some?
              && ParseCommandLine(fromBotItself, content).value.command in {InferenceCommand, HelpCommand}
    ensures a.RequestCompletion? ==> a.prompt == ParseCommandLine(fromBotItself, content).value.argument
    ensures a.RequestCompletion? <==>
              ParseCommandLine(fromBotItself, content).Some?
              && ParseCommandLine(fromBotItself, content).value.command == InferenceCommand
    ensures a == ShowHelp <==>
              ParseCommandLine(fromBotItself, content).Some?
              && ParseCommandLine(fromBotItself, content).value.command == HelpCommand
  {
    match ParseCommandLine(fromBotItself, content)
    case None => Ignore
    case Some(line) =>
      if line.command == InferenceCommand then RequestCompletion(line.argument)
      else if line.command == HelpCommand then ShowHelp
      else Ignore
  }

  /** "$llm tell me a joke" asks for a completion of "tell me a joke", unless the bot itself sent it. */
  lemma InferenceExample(content: string)
    requires content == "$llm tell me a joke"
    ensures Dispatch(false, content) == RequestCompletion(Some("tell me a joke"))
    ensures Dispatch(true, content) == Ignore
  {
    var text := content[1..];
    assert StartsWith(content, BotPrefix);
    assert RemovePrefix(content, BotPrefix) == text;
    StripUnchanged(text);
    SplitOnceAtFirstSpace(text, 3);
    assert text[..3] == InferenceCommand && text[4..] == "tell me a joke";
  }

  /** "$llm-help" selects the help text: the whole word is the command, with no argument. */
  lemma HelpExample(content: string)
    requires content == "$llm-help"
    ensures Dispatch(false, content) == ShowHelp
  {
    var text := content[1..];
    assert StartsWith(content, BotPrefix);
    assert RemovePrefix(content, BotPrefix) == text;
    StripUnchanged(text);
    assert ' ' !in text;
  }
}
