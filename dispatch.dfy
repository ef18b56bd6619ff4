/**
 * Command dispatch (`CLI#run` in rally.rb): the command name is looked up in
 * the fixed list `METHODS` before anything is invoked by that name.
 */
module Dispatch {
  import opened Wrappers

  /** The handlers `run` can reach, one per entry of `METHODS`. */
  datatype Command = Ping | Auth | Whoami | Projects | Entries | Entry | Commit | Edit

  /** `METHODS`, in the order the source lists it. */
  const Methods: seq<string> := ["ping", "auth", "whoami", "projects", "entries", "entry", "commit", "edit"]

  /** The method name of each handler. */
  function Name(c: Command): (n: string)
    ensures n in Methods
  {
    match c
    case Ping => "ping"
    case Auth => "auth"
    case Whoami => "whoami"
    case Projects => "projects"
    case Entries => "entries"
    case Entry => "entry"
    case Commit => "commit"
    case Edit => "edit"
  }

  /** What `send(name)` reaches for a name on the allow-list; nothing for any other name. */
  function Handler(name: string): (c: Option<Command>)
    ensures c.Some? <==> name in Methods
    ensures c.Some? ==> Name(c.value) == name
  {
    if name == "ping" then Some(Ping)
    else if name == "auth" then Some(Auth)
    else if name == "whoami" then Some(Whoami)
    else if name == "projects" then Some(Projects)
    else if name == "entries" then Some(Entries)
    else if name == "entry" then Some(Entry)
    else if name == "commit" then Some(Commit)
    else if name == "edit" then Some(Edit)
    else None
  }

  /** Each handler is reached by exactly its own name. */
  lemma HandlerOfName(c: Command)
    ensures Handler(Name(c)) == Some(c)
  {
  }

  /** What `run` does: invoke a handler, print the unknown-command message, or nothing. */
  datatype Outcome = Invoke(cmd: Command) | Unknown(message: string) | Silent

  /**
   * `CLI#run` on `@method` (nil when no argument was given): a listed name
   * invokes its handler; `--help` prints nothing more; any other name, nil
   * included, only produces `Unknown command <name>.`.
   */
  function Run(command: Option<string>): (o: Outcome)
    ensures o.Invoke? <==> command.Some? && command.value in Methods
    ensures o.Invoke? ==> command == Some(Name(o.cmd))
    ensures o.Silent? <==> command == Some("--help")
    ensures o.Unknown? ==>
      o.message == "Unknown command " + (if command.Some? then command.value else "") + "."
  {
    if command.Some? && command.value in Methods then Invoke(Handler(command.value).value)
    else if command != Some("--help") then
      Unknown("Unknown command " + (if command.Some? then command.value else "") + ".")
    else Silent
  }

  /** Examples: `foo` is reported and nothing runs; `entries` runs its handler; no command is reported with an empty name. */
  lemma RunUnknownExample()
    ensures Run(Some("foo")) == Unknown("Unknown command foo.")
    ensures Run(Some("entries")) == Invoke(Entries)
    ensures Run(None) == Unknown("Unknown command .")
  {
  }
}
