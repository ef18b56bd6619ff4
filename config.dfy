/**
 * Option resolution (`CLI#parse` in rally.rb): the `~/.rally.rc` config file
 * is read line by line into the options hash, then the command-line flags
 * are applied on top of it, each assignment overwriting the previous value
 * of its key.
 */
module Config {
  import opened Wrappers
  import Duration

  /**
   * A value stored in the options hash: a string from the config file or a
   * flag, or the Integer minute count that the `--time` flag stores.
   */
  datatype Value = Text(s: string) | Minutes(m: nat)

  /** The options hash; a key written with nil (a config line without a colon) maps to None. */
  type Table = map<string, Option<Value>>

  /** Ruby truthiness of `@options[key]`: every stored value is truthy, even "" and 0; nil is not. */
  predicate Present(t: Table, key: string) {
    key in t && t[key].Some?
  }

  /** `"#{v}"` for a stored value. */
  function Render(v: Value): string {
    match v
    case Text(s) => s
    case Minutes(m) => Duration.DecimalString(m)
  }

  /** `"#{@options[key]}"`: the stored value as text, "" for nil or a missing key. */
  function Interp(t: Table, key: string): (r: string)
    ensures !Present(t, key) ==> r == ""
    ensures Present(t, key) ==> r == Render(t[key].value)
  {
    if Present(t, key) then Render(t[key].value) else ""
  }

  // ---------------------------------------------------------------------------
  // Reading the config file: readlines, chomp, split(':', 2).
  // ---------------------------------------------------------------------------

  /** The position just past the first newline at or after `p`, or the end of the text. */
  function LineEnd(text: string, p: nat): (q: nat)
    requires p < |text|
    ensures p < q <= |text|
    ensures forall k :: p <= k < q - 1 ==> text[k] != '\n'
    ensures q < |text| ==> text[q - 1] == '\n'
    decreases |text| - p
  {
    if text[p] == '\n' || p + 1 == |text| then p + 1 else LineEnd(text, p + 1)
  }

  function Concat(lines: seq<string>): string {
    if lines == [] then [] else lines[0] + Concat(lines[1..])
  }

  /**
   * `IO#readlines`: the text cut just after every newline; a last line
   * without a newline is kept as it is.
   */
  function ReadLines(text: string): (lines: seq<string>)
    ensures Concat(lines) == text
    ensures forall i :: 0 <= i < |lines| ==> |lines[i]| > 0
    ensures forall i :: 0 <= i < |lines| - 1 ==> lines[i][|lines[i]| - 1] == '\n'
    ensures forall i, k :: 0 <= i < |lines| && 0 <= k < |lines[i]| - 1 ==> lines[i][k] != '\n'
    decreases |text|
  {
    if text == [] then []
    else
      var q := LineEnd(text, 0);
      var rest := ReadLines(text[q..]);
      assert text[..q] + Concat(rest) == text;
      [text[..q]] + rest
  }

  /** `String#chomp`: drops one trailing "\r\n", "\n" or "\r". */
  function Chomp(line: string): (r: string)
    ensures r <= line && |line| - 2 <= |r|
    ensures line == r || line == r + "\n" || line == r + "\r" || line == r + "\r\n"
    ensures |line| >= 2 && line[|line| - 2..] == "\r\n" ==> |r| == |line| - 2
    ensures r == line <==> line == [] || (line[|line| - 1] != '\n' && line[|line| - 1] != '\r')
  {
    if |line| >= 2 && line[|line| - 2..] == "\r\n" then line[..|line| - 2]
    else if |line| >= 1 && (line[|line| - 1] == '\n' || line[|line| - 1] == '\r') then line[..|line| - 1]
    else line
  }

  /**
   * `line.split(':', 2)` on a line: the key before the first colon and the
   * rest of the line after it (further colons included), or nil when there
   * is no colon.
   */
  function SplitAtColon(line: string): (r: (string, Option<string>))
    ensures ':' !in r.0
    ensures r.1.None? <==> ':' !in line
  {
    if line == [] then ([], None)
    else if line[0] == ':' then ([], Some(line[1..]))
    else
      var (k, v) := SplitAtColon(line[1..]);
      ([line[0]] + k, v)
  }

  /** Splitting loses nothing: the key, the colon and the value make up the line again. */
  lemma {:induction false} SplitAtColonRejoins(line: string)
    ensures SplitAtColon(line).1.None? ==> SplitAtColon(line).0 == line
    ensures SplitAtColon(line).1.Some? ==> line == SplitAtColon(line).0 + ":" + SplitAtColon(line).1.value
  {
    if line != [] && line[0] != ':' {
      SplitAtColonRejoins(line[1..]);
      var (k, v) := SplitAtColon(line[1..]);
      if v.Some? {
        assert line == [line[0]] + (k + ":" + v.value);
      }
    }
  }

  /** The split is at the FIRST colon: a colon-free key comes back out, with everything after it. */
  lemma {:induction false} SplitAtColonOf(key: string, value: string)
    requires ':' !in key
    ensures SplitAtColon(key + ":" + value) == (key, Some(value))
  {
    if key == [] {
      assert key + ":" + value == [':'] + value;
    } else {
      assert (key + ":" + value)[1..] == key[1..] + ":" + value;
      SplitAtColonOf(key[1..], value);
      assert [key[0]] + key[1..] == key;
    }
  }

  /** A line that chomps to nothing. */
  predicate Blank(line: string) {
    line == [] || line == "\n" || line == "\r" || line == "\r\n"
  }

  lemma BlankIsChompedEmpty(line: string)
    ensures Blank(line) <==> Chomp(line) == []
  {
  }

  /** The key a (non-blank) config line writes. */
  function LineKey(line: string): string {
    SplitAtColon(Chomp(line)).0
  }

  /** The value a (non-blank) config line writes: the text after the colon, or nil. */
  function LineValue(line: string): Option<Value> {
    match SplitAtColon(Chomp(line)).1
    case None => None
    case Some(v) => Some(Text(v))
  }

  /**
   * A blank line splits into no parts at all, so `key` is nil and
   * `key.intern` raises NoMethodError: loading stops there.
   */
  datatype LoadError = BlankLine(index: nat)

  /** The options after the `readlines.each` loop has stored `lines` into `t`. */
  function LoadLines(t: Table, lines: seq<string>): (r: Result<Table, LoadError>)
    ensures r.Ok? <==> forall i :: 0 <= i < |lines| ==> !Blank(lines[i])
    ensures r.Err? ==> && r.error.index < |lines| && Blank(lines[r.error.index])
                       && forall i :: 0 <= i < r.error.index ==> !Blank(lines[i])
    decreases |lines|
  {
    if lines == [] then Ok(t)
    else
      var n := |lines| - 1;
      assert forall i :: 0 <= i < n ==> lines[..n][i] == lines[i];
      match LoadLines(t, lines[..n])
      case Err(e) => Err(e)
      case Ok(t') =>
        if Blank(lines[n]) then Err(BlankLine(n))
        else Ok(t'[LineKey(lines[n]) := LineValue(lines[n])])
  }

  /** One more line: the load of a prefix grows by that line's store, or stops at it. */
  lemma LoadStep(t: Table, lines: seq<string>, i: nat)
    requires i < |lines|
    ensures LoadLines(t, lines[..i + 1]) ==
      match LoadLines(t, lines[..i])
      case Err(e) => Err(e)
      case Ok(t') =>
        if Blank(lines[i]) then Err(BlankLine(i))
        else Ok(t'[LineKey(lines[i]) := LineValue(lines[i])])
  {
    var prefix := lines[..i + 1];
    assert |prefix| - 1 == i && prefix[i] == lines[i];
    assert prefix[..i] == lines[..i];
  }

  /** The first blank line is where the whole load fails. */
  lemma LoadFirstBlank(t: Table, lines: seq<string>, i: nat)
    requires i < |lines| && Blank(lines[i])
    requires LoadLines(t, lines[..i]).Ok?
    ensures LoadLines(t, lines) == Err(BlankLine(i))
  {
    assert forall j :: 0 <= j < i ==> lines[..i][j] == lines[j];
  }

  /** The lines of the config file, none when the file does not exist. */
  function ConfigLines(file: Option<string>): seq<string> {
    match file
    case None => []
    case Some(text) => ReadLines(text)
  }

  // ---------------------------------------------------------------------------
  // Command-line flags.
  // ---------------------------------------------------------------------------

  /** The flags OptionParser is told about, each already paired with its argument. */
  datatype Flag = Token | Url | Username | Email | Password | From | To | Id | Code | Handle | Time | Note | Date

  /** The options key each flag's callback writes. */
  function Key(f: Flag): string {
    match f
    case Token => "token"
    case Url => "url"
    case Username => "username"
    case Email => "email"
    case Password => "password"
    case From => "from"
    case To => "to"
    case Id => "id"
    case Code => "code"
    case Handle => "handle"
    case Time => "time"
    case Note => "note"
    case Date => "date"
  }

  /** `s.gsub('-', '')`. */
  function StripDashes(s: string): (r: string)
    ensures '-' !in r
    ensures |r| <= |s|
  {
    if s == [] then []
    else (if s[0] == '-' then [] else [s[0]]) + StripDashes(s[1..])
  }

  /** The value a flag's callback stores for argument `arg`. */
  function FlagValue(f: Flag, arg: string): Value {
    match f
    case From => Text(StripDashes(arg))
    case To => Text(StripDashes(arg))
    case Time => Minutes(Duration.Convert(arg))
    case _ => Text(arg)
  }

  /** The options after the flag callbacks have run, in command-line order. */
  function ApplyFlags(t: Table, flags: seq<(Flag, string)>): Table
    decreases |flags|
  {
    if flags == [] then t
    else
      var n := |flags| - 1;
      ApplyFlags(t, flags[..n])[Key(flags[n].0) := Some(FlagValue(flags[n].0, flags[n].1))]
  }

  // ---------------------------------------------------------------------------
  // Last write wins.
  // ---------------------------------------------------------------------------

  /** A key takes the value of the last config line that writes it. */
  lemma {:induction false} LoadLastLineWins(t: Table, lines: seq<string>, i: nat)
    requires LoadLines(t, lines).Ok? && i < |lines|
    requires forall j :: i < j < |lines| ==> LineKey(lines[j]) != LineKey(lines[i])
    ensures LineKey(lines[i]) in LoadLines(t, lines).value
    ensures LoadLines(t, lines).value[LineKey(lines[i])] == LineValue(lines[i])
    decreases |lines|
  {
    var n := |lines| - 1;
    assert forall j :: 0 <= j < n ==> lines[..n][j] == lines[j];
    if i < n {
      LoadLastLineWins(t, lines[..n], i);
    }
  }

  /** A key no config line writes keeps the value it had before the file was read. */
  lemma {:induction false} LoadKeepsUnwritten(t: Table, lines: seq<string>, key: string)
    requires LoadLines(t, lines).Ok?
    requires forall j :: 0 <= j < |lines| ==> LineKey(lines[j]) != key
    ensures (key in LoadLines(t, lines).value) == (key in t)
    ensures key in t ==> LoadLines(t, lines).value[key] == t[key]
    decreases |lines|
  {
    if lines != [] {
      var n := |lines| - 1;
      assert forall j :: 0 <= j < n ==> lines[..n][j] == lines[j];
      LoadKeepsUnwritten(t, lines[..n], key);
    }
  }

  /** A key takes the value of the last flag that sets it. */
  lemma {:induction false} LastFlagWins(t: Table, flags: seq<(Flag, string)>, i: nat)
    requires i < |flags|
    requires forall j :: i < j < |flags| ==> flags[j].0 != flags[i].0
    ensures Key(flags[i].0) in ApplyFlags(t, flags)
    ensures ApplyFlags(t, flags)[Key(flags[i].0)] == Some(FlagValue(flags[i].0, flags[i].1))
    decreases |flags|
  {
    var n := |flags| - 1;
    if i < n {
      assert forall j :: 0 <= j < n ==> flags[..n][j] == flags[j];
      LastFlagWins(t, flags[..n], i);
      KeyInjective(flags[n].0, flags[i].0);
    }
  }

  /** A key no flag sets keeps its value from the config file (or stays unset). */
  lemma {:induction false} FlagsKeepUnset(t: Table, flags: seq<(Flag, string)>, key: string)
    requires forall j :: 0 <= j < |flags| ==> Key(flags[j].0) != key
    ensures (key in ApplyFlags(t, flags)) == (key in t)
    ensures key in t ==> ApplyFlags(t, flags)[key] == t[key]
    decreases |flags|
  {
    if flags != [] {
      var n := |flags| - 1;
      assert forall j :: 0 <= j < n ==> flags[..n][j] == flags[j];
      FlagsKeepUnset(t, flags[..n], key);
    }
  }

  /** Different flags write different keys. */
  lemma KeyInjective(f: Flag, g: Flag)
    ensures Key(f) == Key(g) ==> f == g
  {
  }

  /** A flag always leaves its key set: every flag callback stores a non-nil value. */
  lemma {:induction false} FlagsSetPresent(t: Table, flags: seq<(Flag, string)>, i: nat)
    requires i < |flags|
    ensures Present(ApplyFlags(t, flags), Key(flags[i].0))
    decreases |flags|
  {
    var n := |flags| - 1;
    if i < n {
      assert flags[..n][i] == flags[i];
      FlagsSetPresent(t, flags[..n], i);
    }
  }

  // ---------------------------------------------------------------------------
  // `gsub('-', '')` on the dates.
  // ---------------------------------------------------------------------------

  /** Stripping works piecewise, so the characters that remain keep their order. */
  lemma {:induction false} StripDashesAppend(a: string, b: string)
    ensures StripDashes(a + b) == StripDashes(a) + StripDashes(b)
    decreases |a|
  {
    if a != [] {
      assert (a + b)[0] == a[0];
      assert (a + b)[1..] == a[1..] + b;
      StripDashesAppend(a[1..], b);
      var head := if a[0] == '-' then [] else [a[0]];
      assert StripDashes(a + b) == head + (StripDashes(a[1..]) + StripDashes(b));
      assert StripDashes(a) == head + StripDashes(a[1..]);
    } else {
      assert a + b == b;
    }
  }

  /** Every character other than `-` survives, as often as it occurred. */
  lemma {:induction false} StripDashesKeepsOthers(s: string, c: char)
    requires c != '-'
    ensures multiset(StripDashes(s))[c] == multiset(s)[c]
    decreases |s|
  {
    if s != [] {
      StripDashesKeepsOthers(s[1..], c);
      assert s == [s[0]] + s[1..];
    }
  }

  /** Text without dashes is stored unchanged. */
  lemma {:induction false} StripDashesNoDash(s: string)
    requires '-' !in s
    ensures StripDashes(s) == s
    decreases |s|
  {
    if s != [] {
      assert s[0] in s;
      assert forall k :: 0 <= k < |s| - 1 ==> s[1..][k] in s;
      StripDashesNoDash(s[1..]);
    }
  }

  /** The `from` and `to` options a flag stores contain no `-`. */
  lemma {:induction false} DateFlagsHaveNoDash(t: Table, flags: seq<(Flag, string)>, i: nat)
    requires i < |flags| && flags[i].0 in {From, To}
    requires forall j :: i < j < |flags| ==> flags[j].0 != flags[i].0
    ensures Key(flags[i].0) in ApplyFlags(t, flags)
    ensures ApplyFlags(t, flags)[Key(flags[i].0)] == Some(Text(StripDashes(flags[i].1)))
    ensures '-' !in Interp(ApplyFlags(t, flags), Key(flags[i].0))
  {
    LastFlagWins(t, flags, i);
  }

  // ---------------------------------------------------------------------------
  // The config file that `auth` writes is the one `parse` reads back.
  // ---------------------------------------------------------------------------

  /** `IO#puts`: the line followed by a newline unless it already ends with one. */
  function Puts(line: string): string {
    if line != [] && line[|line| - 1] == '\n' then line else line + "\n"
  }

  /** A config file written with one `puts "key:value"` per pair. */
  function ConfigText(pairs: seq<(string, string)>): string
    decreases |pairs|
  {
    if pairs == [] then []
    else
      var n := |pairs| - 1;
      ConfigText(pairs[..n]) + Puts(pairs[n].0 + ":" + pairs[n].1)
  }

  /** The text of `~/.rally.rc` after a successful `auth` (`CLI#auth`). */
  function AuthConfigText(url: string, username: string, email: string, apiKey: string): string {
    ConfigText([("url", url), ("username", username), ("email", email), ("token", apiKey)])
  }

  /** The options that storing each pair as a string would give. */
  function StorePairs(t: Table, pairs: seq<(string, string)>): Table
    decreases |pairs|
  {
    if pairs == [] then t
    else
      var n := |pairs| - 1;
      StorePairs(t, pairs[..n])[pairs[n].0 := Some(Text(pairs[n].1))]
  }

  /** Text whose last character is a carriage return, which `chomp` would take away. */
  predicate EndsInCR(s: string) {
    s != [] && s[|s| - 1] == '\r'
  }

  /** Pairs that survive the file format: no newline anywhere, no colon in a key, no carriage return ending a value. */
  predicate Writable(pairs: seq<(string, string)>) {
    forall i :: 0 <= i < |pairs| ==>
      ':' !in pairs[i].0 && '\n' !in pairs[i].0 && '\n' !in pairs[i].1 && !EndsInCR(pairs[i].1)
  }

  /** The first line of `a + b` ends inside `a` when `a` ends with a newline. */
  lemma {:induction false} LineEndPrefix(a: string, b: string, p: nat)
    requires p < |a| && a[|a| - 1] == '\n'
    ensures LineEnd(a + b, p) == LineEnd(a, p)
    decreases |a| - p
  {
    if a[p] != '\n' && p + 1 < |a| {
      LineEndPrefix(a, b, p + 1);
    }
  }

  /** Reading complete lines and then the rest is reading the concatenation. */
  lemma {:induction false} ReadLinesAppend(a: string, b: string)
    requires a == [] || a[|a| - 1] == '\n'
    ensures ReadLines(a + b) == ReadLines(a) + ReadLines(b)
    decreases |a|
  {
    if a != [] {
      var q := LineEnd(a, 0);
      LineEndPrefix(a, b, 0);
      assert (a + b)[..q] == a[..q];
      assert (a + b)[q..] == a[q..] + b;
      assert a[q..] == [] || a[q..][|a[q..]| - 1] == '\n';
      ReadLinesAppend(a[q..], b);
      assert ReadLines(a + b) == [a[..q]] + (ReadLines(a[q..]) + ReadLines(b));
      assert ReadLines(a) == [a[..q]] + ReadLines(a[q..]);
    } else {
      assert a + b == b;
    }
  }

  /** A single newline-terminated line reads back as itself. */
  lemma ReadOneLine(x: string)
    requires '\n' !in x
    ensures ReadLines(x + "\n") == [x + "\n"]
  {
    var s := x + "\n";
    var q := LineEnd(s, 0);
    assert forall k :: 0 <= k < |x| ==> s[k] == x[k] && x[k] in x;
    assert q == |s|;
    assert s[..q] == s;
    assert s[q..] == [];
    assert ReadLines(s) == [s[..q]] + ReadLines(s[q..]);
  }

  /** A written pair holds no newline: neither its key nor its value has one. */
  lemma PairHasNoNewline(key: string, value: string)
    requires '\n' !in key && '\n' !in value
    ensures '\n' !in key + ":" + value
  {
    var x := key + ":" + value;
    forall k | 0 <= k < |x| ensures x[k] != '\n' {
      if k < |key| {
        assert x[k] == key[k] && key[k] in key;
      } else if k > |key| {
        assert x[k] == value[k - |key| - 1] && value[k - |key| - 1] in value;
      }
    }
  }

  /** One written pair is one non-blank line carrying that key and value. */
  lemma WrittenLine(key: string, value: string)
    requires ':' !in key && '\n' !in key && '\n' !in value && !EndsInCR(value)
    ensures Puts(key + ":" + value) == key + ":" + value + "\n"
    ensures ReadLines(Puts(key + ":" + value)) == [key + ":" + value + "\n"]
    ensures !Blank(key + ":" + value + "\n")
    ensures LineKey(key + ":" + value + "\n") == key
    ensures LineValue(key + ":" + value + "\n") == Some(Text(value))
  {
    var x := key + ":" + value;
    PairHasNoNewline(key, value);
    assert x[|x| - 1] in x;
    ReadOneLine(x);
    WrittenLineStores(key, value);
  }

  /** The chomped line splits back into the written key and value. */
  lemma WrittenLineStores(key: string, value: string)
    requires ':' !in key && !EndsInCR(value)
    ensures !Blank(key + ":" + value + "\n")
    ensures LineKey(key + ":" + value + "\n") == key
    ensures LineValue(key + ":" + value + "\n") == Some(Text(value))
  {
    var x := key + ":" + value;
    var line := x + "\n";
    assert x[|key|] == ':';
    if value != [] {
      assert x[|x| - 1] == value[|value| - 1];
    }
    assert line[..|line| - 1] == x;
    assert Chomp(line) == x;
    SplitAtColonOf(key, value);
  }

  /** Whatever is written with `puts "key:value"` is read back by the config loop. */
  lemma {:induction false} ConfigRoundTrip(t: Table, pairs: seq<(string, string)>)
    requires Writable(pairs)
    ensures LoadLines(t, ReadLines(ConfigText(pairs))) == Ok(StorePairs(t, pairs))
    decreases |pairs|
  {
    if pairs != [] {
      var n := |pairs| - 1;
      var (key, value) := pairs[n];
      ConfigRoundTrip(t, pairs[..n]);
      WrittenLine(key, value);
      var before := ConfigText(pairs[..n]);
      var x := key + ":" + value + "\n";
      ConfigTextEnds(pairs[..n]);
      ReadLinesAppend(before, x);
      var lines := ReadLines(before) + [x];
      assert lines[..|lines| - 1] == ReadLines(before);
    }
  }

  /** A written config file is empty or ends with a newline. */
  lemma ConfigTextEnds(pairs: seq<(string, string)>)
    ensures ConfigText(pairs) == [] || ConfigText(pairs)[|ConfigText(pairs)| - 1] == '\n'
  {
  }

  /** After `auth`, the next `parse` sees the server's username, email and api key. */
  lemma AuthConfigRoundTrip(url: string, username: string, email: string, apiKey: string)
    requires '\n' !in url && !EndsInCR(url) && '\n' !in username && !EndsInCR(username)
    requires '\n' !in email && !EndsInCR(email) && '\n' !in apiKey && !EndsInCR(apiKey)
    ensures LoadLines(map[], ConfigLines(Some(AuthConfigText(url, username, email, apiKey))))
      == Ok(map["url" := Some(Text(url)), "username" := Some(Text(username)),
                "email" := Some(Text(email)), "token" := Some(Text(apiKey))])
  {
    var pairs := [("url", url), ("username", username), ("email", email), ("token", apiKey)];
    assert Writable(pairs);
    ConfigRoundTrip(map[], pairs);
    StoreFour(pairs);
  }

  lemma StoreFour(pairs: seq<(string, string)>)
    requires |pairs| == 4
    ensures StorePairs(map[], pairs)
      == map[pairs[0].0 := Some(Text(pairs[0].1)), pairs[1].0 := Some(Text(pairs[1].1)),
             pairs[2].0 := Some(Text(pairs[2].1)), pairs[3].0 := Some(Text(pairs[3].1))]
  {
    assert pairs[..3][..2] == pairs[..2];
    assert pairs[..2][..1] == pairs[..1];
    assert pairs[..1][..0] == [];
    assert StorePairs(map[], pairs[..1]) == map[pairs[0].0 := Some(Text(pairs[0].1))];
    assert StorePairs(map[], pairs[..2]) == StorePairs(map[], pairs[..1])[pairs[1].0 := Some(Text(pairs[1].1))];
    assert StorePairs(map[], pairs[..3]) == StorePairs(map[], pairs[..2])[pairs[2].0 := Some(Text(pairs[2].1))];
  }

  /**
   * Precedence, file part: a file setting `url` to A and `handle` to acme
   * loads as exactly those two options.
   */
  lemma PrecedenceFileExample()
    ensures LoadLines(map[], ConfigLines(Some(ConfigText([("url", "A"), ("handle", "acme")]))))
      == Ok(map["url" := Some(Text("A")), "handle" := Some(Text("acme"))])
  {
    var pairs := [("url", "A"), ("handle", "acme")];
    assert Writable(pairs);
    ConfigRoundTrip(map[], pairs);
    assert pairs[..1][..0] == [];
  }

  /**
   * Precedence, flag part: a `--url C` flag on top of that file wins for
   * `url`, and `handle` keeps its file value.
   */
  lemma PrecedenceFlagExample()
    ensures ApplyFlags(map["url" := Some(Text("A")), "handle" := Some(Text("acme"))], [(Url, "C")])
      == map["url" := Some(Text("C")), "handle" := Some(Text("acme"))]
  {
    var flags := [(Url, "C")];
    assert flags[..0] == [];
  }

  // ---------------------------------------------------------------------------
  // The CLI object and its `parse`.
  // ---------------------------------------------------------------------------

  /** `RallyClock::CLI`: the argument vector, the options hash and the command name. */
  class CLI {
    const args: seq<string>
    var options: Table
    var command: Option<string>

    /** `CLI.new(args)`. */
    constructor (args: seq<string>)
      ensures this.args == args && options == map[] && command == None
    {
      this.args := args;
      options := map[];
      command := None;
    }

    /**
     * `CLI#parse`, with the config file's contents (None when it does not
     * exist) and the flags OptionParser recognised in `args`. The options
     * start empty; every config line and then every flag overwrites its key.
     * A blank config line aborts the load before any flag is applied.
     */
    method Parse(file: Option<string>, flags: seq<(Flag, string)>) returns (failure: Option<LoadError>)
      modifies this
      ensures failure.Some? <==> LoadLines(map[], ConfigLines(file)).Err?
      ensures failure.Some? ==>
        && failure.value == LoadLines(map[], ConfigLines(file)).error
        && options == LoadLines(map[], ConfigLines(file)[..failure.value.index]).value
        && command == old(command)
      ensures failure.None? ==>
        && options == ApplyFlags(LoadLines(map[], ConfigLines(file)).value, flags)
        && command == (if |args| > 0 then Some(args[0]) else None)
    {
      options := map[];
      failure := LoadConfig(ConfigLines(file));
      if failure.Some? {
        return;
      }
      command := if |args| > 0 then Some(args[0]) else None;
      ApplyFlagArguments(flags);
    }

    /** The `readlines.each` loop: stores every config line into the options. */
    method LoadConfig(lines: seq<string>) returns (failure: Option<LoadError>)
      modifies this`options
      ensures failure.Some? <==> LoadLines(old(options), lines).Err?
      ensures failure.Some? ==>
        && failure.value == LoadLines(old(options), lines).error
        && options == LoadLines(old(options), lines[..failure.value.index]).value
      ensures failure.None? ==> options == LoadLines(old(options), lines).value
    {
      var i := 0;
      while i < |lines|
        invariant 0 <= i <= |lines|
        invariant LoadLines(old(options), lines[..i]) == Ok(options)
      {
        LoadStep(old(options), lines, i);
        if Blank(lines[i]) {
          failure := Some(BlankLine(i));
          LoadFirstBlank(old(options), lines, i);
          return;
        }
        options := options[LineKey(lines[i]) := LineValue(lines[i])];
        i := i + 1;
      }
      assert lines[..i] == lines;
      failure := None;
    }

    /** The flag callbacks, run in command-line order. */
    method ApplyFlagArguments(flags: seq<(Flag, string)>)
      modifies this`options
      ensures options == ApplyFlags(old(options), flags)
    {
      var n := 0;
      while n < |flags|
        invariant 0 <= n <= |flags|
        invariant options == ApplyFlags(old(options), flags[..n])
      {
        assert flags[..n + 1][..n] == flags[..n];
        var (f, arg) := flags[n];
        options := options[Key(f) := Some(FlagValue(f, arg))];
        n := n + 1;
      }
      assert flags[..n] == flags;
    }
  }
}
