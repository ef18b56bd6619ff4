# rally: a Dafny model of the RallyClock command-line client

`rally.rb` is a small Ruby client for the RallyClock time-tracking server.
It reads `~/.rally.rc` and the command-line flags into an options hash,
checks the command name against the fixed list `METHODS`, and has each handler
run a `curl` command line built by string interpolation. This project models
the parts of that file that are logic rather than I/O:

- **Duration** (`duration.dfy`): `CLI#convert`. This covers the two regex lookups `/(\d+)h/` and
  `/(\d+)m/`, `to_i`, and the minute total. It also covers `Integer#to_s`, used when the stored
  minute count is interpolated.
- **Config** (`config.dfy`): option resolution in `CLI#parse`. The config file is read with
  `readlines`, `chomp` and `split(':', 2)`, and each line overwrites its key. The flag callbacks
  then overwrite theirs: `--from` and `--to` lose every `-`, and `--time` goes through `convert`.
  The class `CLI` holds the options hash and the command name, and `Parse` updates them in place
  with two loops. This file also models the text of the config file that `auth` writes, and proves
  that `parse` reads it back.
- **Dispatch** (`dispatch.dfy`): `CLI#run`. A name on the `METHODS` list invokes its handler.
  `--help` does nothing more. Any other name, including a missing one, only yields
  `Unknown command <name>.`.
- **Requests** (`requests.dfy`): `CLI#maybe` and the command line each handler builds (`ping`,
  `auth`, `whoami`, `projects`, `entries`, `entry`, `commit`, `edit`). Values are interpolated
  with no escaping, as in the source.
- **Output** (`output.dfy`): the decision in `CLI#output`, over an already parsed JSON value. A
  hash with a truthy `error` entry shows only that entry. Anything else is shown whole.

Points of the code's behaviour that the model keeps as written:

- Options are read from one file only, `~/.rally.rc` (rally.rb:7, 40-47).
- `--date` is stored as given. Only `--from` and `--to` are dash-stripped (rally.rb:73-79, 101-103).
- `METHODS` is `ping auth whoami projects entries entry commit edit` (rally.rb:8).
- A stored minute count is interpolated as plain decimal digits. Nothing turns it back into hours
  and minutes (rally.rb:94, 164, 169).
- A config line without a colon stores its key with nil (rally.rb:43-44).
- A blank config line raises `NoMethodError` (`nil.intern`, rally.rb:43-44). The model reports it
  as `BlankLine`.
- `auth` writes the config file whether or not the reply carries an error (rally.rb:125-131).
- The `commit` body appends `maybe(:date)` right after the note, with no `&` (rally.rb:164).
  `CommitBodyShape` states this as it is.

Ruby truthiness is modelled exactly: `""` and `0` count as present, and only nil counts as absent.

## Model

| member | source | states |
|---|---|---|
| Duration.DigitsEnd | rally.rb:182-183 | the greedy `\d+` from a position stops at the first non-digit, and everything before it is a digit |
| Duration.FirstRun | rally.rb:182-183 | the capture is a non-empty digit string. FirstRunSpec and FirstRunIs pin it down as the leftmost maximal run before the marker |
| Duration.Convert | rally.rb:181-185 | the guarded product `hours > 0 ? 60 * hours : hours` is always 60·hours, so the result is 60·hours + minutes. The laws are ConvertHoursAndMinutes, ConvertHoursOnly, ConvertMinutesOnly and ConvertNoSegments |
| Duration.FirstRunSpec | rally.rb:182-183 | `s[/(\d+)x/, 1]` is nil exactly when no digit run directly precedes an `x`; otherwise it is the leftmost maximal such run |
| Duration.FirstRunIs | rally.rb:182-183 | conversely, the leftmost maximal digit run directly before the marker is what the lookup captures |
| Duration.ConvertHoursAndMinutes | rally.rb:181-185 | `convert` of `<h>h<m>m` and of `<m>m<h>h` is 60·h + m: the order of the two segments does not matter |
| Duration.ConvertHoursOnly | rally.rb:181-185 | a missing minutes segment counts as 0: `convert("<h>h")` is 60·h |
| Duration.ConvertMinutesOnly | rally.rb:181-185 | a missing hours segment counts as 0: `convert("<m>m")` is m |
| Duration.ConvertNoSegments | rally.rb:182-184 | text with no `<digits>h` and no `<digits>m` converts to 0, not to an error |
| Duration.ConvertExamples | rally.rb:181-185 | `2h15m` gives 135, `15m2h` gives 135, `45m` gives 45 and `3h` gives 180 |
| Duration.DecimalString | rally.rb:164-169 | the decimal text of an interpolated minute count is a non-empty digit string, starts with `0` only when it is `0` itself, and `to_i` reads it back as the same number |
| Config.Interp | rally.rb:119-175 | `"#{@options[key]}"`: a missing or nil option interpolates as "", and a set one as its text, or as its decimal digits when it is a minute count |
| Config.ReadLines | rally.rb:42 | `readlines` cuts the file into non-empty lines. Each line except the last ends with its only newline, and together they make up the file |
| Config.Chomp | rally.rb:43 | the line is the result followed by nothing, LF, CR or CR LF. A trailing CR LF is removed whole, and only a line ending in LF or CR changes |
| Config.SplitAtColon | rally.rb:43 | the key has no colon, and the value is nil exactly when the line has no colon |
| Config.SplitAtColonRejoins | rally.rb:43 | key + ":" + value is the whole line, so further colons stay in the value; with no colon, the key is the whole line |
| Config.SplitAtColonOf | rally.rb:43 | the split is at the first colon: `k:v` with a colon-free `k` splits into `k` and `v` |
| Config.LoadLines | rally.rb:42-45 | loading succeeds exactly when no line is blank, and otherwise fails at the first blank line |
| Config.LoadLastLineWins | rally.rb:42-45 | a key ends with the value of the last config line that writes it |
| Config.LoadKeepsUnwritten | rally.rb:40-47 | a key that no config line writes keeps its earlier value, or stays unset |
| Config.Key | rally.rb:53-103 | the key each flag callback writes. KeyInjective: no two flags share a key |
| Config.FlagValue | rally.rb:53-103 | from/to are dash-stripped (StripDashes, DateFlagsHaveNoDash), time is converted to minutes (EditTimeIsMinutes), and the rest are kept as given |
| Config.ApplyFlags | rally.rb:53-103 | the flag fold. LastFlagWins, FlagsKeepUnset and FlagsSetPresent state its laws, and the ApplyFlagArguments loop is proved equal to it |
| Config.LastFlagWins | rally.rb:53-103 | a key ends with the value of the last flag that sets it, so flags override the file |
| Config.FlagsKeepUnset | rally.rb:53-103 | a key that no flag sets keeps its value from the config file |
| Config.FlagsSetPresent | rally.rb:53-103 | a key that a flag sets always holds a non-nil value |
| Config.KeyInjective | rally.rb:53-103 | different flags write different option keys |
| Config.StripDashes | rally.rb:74 | the stored `from`/`to` text has no `-` and is no longer than the argument |
| Config.StripDashesAppend | rally.rb:74 | `gsub('-', '')` works piece by piece, so the remaining characters keep their order |
| Config.StripDashesKeepsOthers | rally.rb:78 | every character other than `-` survives as many times as it occurred |
| Config.StripDashesNoDash | rally.rb:74 | a date without dashes is stored unchanged |
| Config.DateFlagsHaveNoDash | rally.rb:73-79 | after the flags run, `from` and `to` hold their last argument with every `-` removed |
| Config.Puts | rally.rb:127-130 | WrittenLine: a written pair is its text followed by exactly one newline |
| Config.ConfigText | rally.rb:126-131 | one `puts` line per pair; ConfigRoundTrip reads it back |
| Config.AuthConfigText | rally.rb:126-131 | the four lines `auth` writes; AuthConfigRoundTrip reads them back as url, username, email and token |
| Config.ConfigRoundTrip | rally.rb:126-131 | every `puts "key:value"` line (no newline, no colon in the key, no CR ending the value) is read back by the config loop as that key and value |
| Config.AuthConfigRoundTrip | rally.rb:126-131 | the file written by `auth` loads as exactly url, username, email and token |
| Config.PrecedenceFileExample | rally.rb:40-47 | a file setting `url:A` and `handle:acme` loads as those two options |
| Config.PrecedenceFlagExample | rally.rb:57-59 | `--url C` on top of that file gives url C and keeps handle acme |
| Config.CLI.constructor | rally.rb:11-13 | a new CLI keeps its arguments, with empty options and no command yet |
| Config.CLI.Parse | rally.rb:38-107 | options start empty, then config lines and then flags are folded in. The command is the first argument. A blank config line stops before the flags |
| Config.CLI.LoadConfig | rally.rb:40-47 | the `readlines.each` loop leaves the options equal to the line fold, or stops at the first blank line |
| Config.CLI.ApplyFlagArguments | rally.rb:49-104 | the flag callbacks leave the options equal to the flag fold over the previous options |
| Dispatch.Name | rally.rb:8 | every handler's name is on the `METHODS` list |
| Dispatch.Handler | rally.rb:111-112 | a name reaches a handler exactly when it is on `METHODS`, and then it reaches the handler of that name |
| Dispatch.HandlerOfName | rally.rb:8 | each handler is reached by its own name |
| Dispatch.Run | rally.rb:110-116 | a handler runs exactly when the command is listed. `--help` alone yields nothing. Every other command, nil included, only yields `Unknown command <cmd>.` |
| Dispatch.RunUnknownExample | rally.rb:110-116 | `foo` yields `Unknown command foo.`, `entries` invokes `entries`, and a missing command yields `Unknown command .` |
| Requests.Param | rally.rb:175 | every `maybe` parameter starts with `entry[` |
| Requests.PresentParams | rally.rb:173-179 | the reference list has one `entry[k]=v` for each requested key with a value, and nothing else |
| Requests.CandidatesRejected | rally.rb:174-178 | `map` then `reject(&:empty?)` leaves exactly the present parameters, in argument order |
| Requests.Maybe | rally.rb:173-179 | `maybe`. MaybeJoinsPresent, MaybeSnoc and MaybeEmpty state its laws |
| Requests.MaybeJoinsPresent | rally.rb:173-179 | `maybe` is the present parameters joined with `&` |
| Requests.MaybeSnoc | rally.rb:173-179 | an extra absent key adds nothing. An extra present key adds its parameter, after a single `&` unless it is the first, so no `&` leads, trails or doubles |
| Requests.MaybeEmpty | rally.rb:173-179 | `maybe` is empty exactly when no requested key has a value, and otherwise it starts with `entry[` |
| Requests.Ping | rally.rb:119 | `ping`. PingUsesOnlyUrl: the command line depends on the url alone |
| Requests.PingUsesOnlyUrl | rally.rb:119 | tables that agree on `url` give the same `ping` command line |
| Requests.Auth | rally.rb:124 | `auth`. AuthCarriesCredentials and AuthUsesOnlyCredentials state its laws |
| Requests.AuthCarriesCredentials | rally.rb:124 | the `auth` command line carries `-H 'X_USERNAME: <username>'` and `-H 'X_PASSWORD: <password>'` |
| Requests.AuthUsesOnlyCredentials | rally.rb:124 | tables that agree on url, username and password give the same `auth` command line |
| Requests.Whoami | rally.rb:136 | `whoami`. AuthenticatedCarryToken: it carries `?t=<token>` |
| Requests.Projects | rally.rb:141 | `projects`. AuthenticatedCarryToken: it carries `?t=<token>` |
| Requests.Entries | rally.rb:145-154 | `entries`. EntriesShape, EntriesFiltersPresent and AuthenticatedCarryToken state its laws |
| Requests.Entry | rally.rb:159 | `entry`. AuthenticatedCarryToken: it carries `?t=<token>` |
| Requests.EntriesShape | rally.rb:145-154 | the four branches of `entries` are one rule: the token, then `&from=` when from is set, then `&to=` when to is set, and the URL is quoted when either is set |
| Requests.EntriesFiltersPresent | rally.rb:146-151 | the `entries` query names `from` exactly when from is set and `to` exactly when to is set, which gives four distinct shapes |
| Requests.AuthenticatedCarryToken | rally.rb:135-169 | `whoami`, `projects`, `entries`, `entry`, `commit` and `edit` all carry `?t=<token>` |
| Requests.CommitBody | rally.rb:164 | the `commit` data. CommitBodyShape states its shape |
| Requests.Commit | rally.rb:164 | `commit`. AuthenticatedCarryToken and BodiesInRequests: it carries the token and then its body as the `-d` data |
| Requests.EditBody | rally.rb:169 | the `edit` data, `maybe(:time, :date, :note)`. EditBodyEmpty and EditTimeIsMinutes state its laws |
| Requests.Edit | rally.rb:169 | `edit`. AuthenticatedCarryToken and BodiesInRequests: it carries the token and then its body as the `-d` data |
| Requests.Request | rally.rb:112 | `send(@method)`: the command line of the invoked handler. AuthenticatedCarryToken: every handler except `ping` and `auth` carries `?t=<token>` |
| Requests.BodiesInRequests | rally.rb:164-169 | `commit` and `edit` end with their body, double-quoted, as the `-d` data |
| Requests.CommitBodyShape | rally.rb:164 | the `commit` body is `entry[time]=..&entry[note]=..`, followed directly by `entry[date]=..` with no `&` when a date is set |
| Requests.EditTimeIsMinutes | rally.rb:169 | the `edit` body starts with `entry[time]=` followed by the decimal minute count, which `to_i` reads back as the stored minutes |
| Requests.EditBodyEmpty | rally.rb:169 | the `edit` body is empty exactly when none of time, date and note is set |
| Output.Get | rally.rb:189 | a non-nil `hash[key]` is the value of a member with that name |
| Output.GetLast | rally.rb:189 | `hash[key]` is the value of the last member with that name |
| Output.GetMissing | rally.rb:189 | `hash[key]` is nil when no member has that name |
| Output.Shown | rally.rb:187-194 | `output` shows the whole content unless it is a hash with a truthy `error`, and then shows only that entry. ShownError, ShownFalsyError and ShownWhole cover the three cases |
| Output.ShownError | rally.rb:189-190 | a hash whose last `error` member is truthy is shown as that member's value alone |
| Output.ShownFalsyError | rally.rb:189-192 | a hash whose last `error` member is nil or false is shown whole |
| Output.ShownWhole | rally.rb:189-192 | content that is not a hash, or a hash with no `error` member, is shown whole |
| Output.ShownErrorExample | rally.rb:189-193 | `{"error":"bad creds"}` shows only `"bad creds"`; a hash without `error` is shown whole |

## Left out

- Running the `curl` command lines (rally.rb:119-169): this is shell and network I/O. Only the text that is built is modelled.
- `JSON.parse` and `pp` (rally.rb:125, 188-193): they belong to a foreign library. `output` is modelled over an already parsed value, and a parse error is not modelled.
- Output.Json: JSON numbers are modelled as integers only, because floating point is not modelled.
- File-system access: `File.exists?`, `File.open`, the config write in `auth`, and `ENV['HOME']` (rally.rb:7, 40-46, 126-132). The file contents come in as an optional string, and the written file is modelled as its text.
- `auth`'s use of the server's reply (rally.rb:125-131) depends on the JSON library. The three reply fields are parameters of `AuthConfigText`. A reply that is not JSON raises before the file is opened. A reply that parses to an array raises after the `url:` line is written. Neither failure is modelled.
- OptionParser (rally.rb:49-107): the banner, help texts, `--help`, the `-h` short-flag clash between help and `--handle`, and the `["-h"]` fallback. Flags arrive already parsed as `(Flag, argument)` pairs in command-line order.
- `process!` and the top-level call (rally.rb:15-19, 198). These only chain `new`, `parse` and `run`.
- `puts` of the unknown-command message and of `created <file>` (rally.rb:114, 132). The message is returned as data.
