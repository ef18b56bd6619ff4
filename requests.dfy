/**
 * The request text each handler of rally.rb builds: the `curl` command line
 * between the backticks, with option values interpolated as they are (no
 * shell or URL escaping), and `maybe`, which assembles the optional body
 * parameters. Running the command is left out.
 */
module Requests {
  import opened Wrappers
  import opened Config
  import Dispatch

  // ---------------------------------------------------------------------------
  // `CLI#maybe`
  // ---------------------------------------------------------------------------

  /** `"entry[#{k}]=#{@options[k]}"`. */
  function Param(t: Table, key: string): (p: string)
    ensures "entry[" <= p
  {
    "entry[" + key + "]=" + Interp(t, key)
  }

  /** `keys.map { |k| @options[k] ? "entry[#{k}]=#{@options[k]}" : "" }`. */
  function Candidates(t: Table, keys: seq<string>): seq<string>
    decreases |keys|
  {
    if keys == [] then []
    else [if Present(t, keys[0]) then Param(t, keys[0]) else ""] + Candidates(t, keys[1..])
  }

  /** `reject(&:empty?)`. */
  function RejectEmpty(parts: seq<string>): seq<string>
    decreases |parts|
  {
    if parts == [] then []
    else (if parts[0] == [] then [] else [parts[0]]) + RejectEmpty(parts[1..])
  }

  /** `Array#join(sep)`. */
  function Join(parts: seq<string>, sep: string): string
    decreases |parts|
  {
    if parts == [] then []
    else if |parts| == 1 then parts[0]
    else parts[0] + sep + Join(parts[1..], sep)
  }

  /** `CLI#maybe(*keys)`. */
  function Maybe(t: Table, keys: seq<string>): string {
    Join(RejectEmpty(Candidates(t, keys)), "&")
  }

  /**
   * Reference reading of `maybe`: one `entry[k]=v` per requested key whose
   * value is present, in argument order.
   */
  function PresentParams(t: Table, keys: seq<string>): (r: seq<string>)
    ensures forall p :: p in r ==> "entry[" <= p
    ensures forall k :: k in keys && Present(t, k) ==> Param(t, k) in r
    ensures forall p :: p in r ==> exists k :: k in keys && Present(t, k) && p == Param(t, k)
    decreases |keys|
  {
    if keys == [] then []
    else
      var rest := PresentParams(t, keys[1..]);
      assert forall k :: k in keys[1..] ==> k in keys;
      assert forall k :: k in keys ==> k == keys[0] || k in keys[1..];
      (if Present(t, keys[0]) then [Param(t, keys[0])] else []) + rest
  }

  /** `maybe` joins exactly the present parameters, in argument order, with single `&`. */
  lemma {:induction false} MaybeJoinsPresent(t: Table, keys: seq<string>)
    ensures Maybe(t, keys) == Join(PresentParams(t, keys), "&")
  {
    CandidatesRejected(t, keys);
  }

  lemma {:induction false} CandidatesRejected(t: Table, keys: seq<string>)
    ensures RejectEmpty(Candidates(t, keys)) == PresentParams(t, keys)
    decreases |keys|
  {
    if keys != [] {
      CandidatesRejected(t, keys[1..]);
      var c := Candidates(t, keys);
      assert c[1..] == Candidates(t, keys[1..]);
      if Present(t, keys[0]) {
        assert "entry[" <= Param(t, keys[0]);
        assert c[0] != [];
      }
    }
  }

  /** Joining parameters that all start with `entry[` gives "" only when there are none. */
  lemma {:induction false} JoinEmpty(parts: seq<string>, sep: string)
    requires forall p :: p in parts ==> "entry[" <= p
    ensures Join(parts, sep) == [] <==> parts == []
    ensures parts != [] ==> "entry[" <= Join(parts, sep)
  {
    if parts != [] {
      assert parts[0] in parts;
      assert parts[0] <= Join(parts, sep);
    }
  }

  /** Adding one part at the end adds one separator, unless it is the first part. */
  lemma {:induction false} JoinSnoc(parts: seq<string>, p: string, sep: string)
    ensures Join(parts + [p], sep) == if parts == [] then p else Join(parts, sep) + sep + p
    decreases |parts|
  {
    if |parts| >= 2 {
      assert (parts + [p])[1..] == parts[1..] + [p];
      JoinSnoc(parts[1..], p, sep);
    } else if |parts| == 1 {
      assert (parts + [p])[1..] == [p];
    }
  }

  lemma {:induction false} PresentParamsSnoc(t: Table, keys: seq<string>, k: string)
    ensures PresentParams(t, keys + [k])
      == PresentParams(t, keys) + (if Present(t, k) then [Param(t, k)] else [])
    decreases |keys|
  {
    var ks := keys + [k];
    if keys != [] {
      assert ks[0] == keys[0];
      assert ks[1..] == keys[1..] + [k];
      PresentParamsSnoc(t, keys[1..], k);
      var head := if Present(t, keys[0]) then [Param(t, keys[0])] else [];
      assert PresentParams(t, ks) == head + PresentParams(t, ks[1..]);
      assert PresentParams(t, keys) == head + PresentParams(t, keys[1..]);
    } else {
      assert ks == [k] && ks[1..] == [];
    }
  }

  /**
   * `maybe` grows one key at a time: an absent key adds nothing, a present
   * key adds its parameter, preceded by `&` unless it is the first one. So
   * the result has no leading or trailing separator and no doubled one.
   */
  lemma MaybeSnoc(t: Table, keys: seq<string>, k: string)
    ensures Maybe(t, keys + [k]) ==
      if !Present(t, k) then Maybe(t, keys)
      else if Maybe(t, keys) == [] then Param(t, k)
      else Maybe(t, keys) + "&" + Param(t, k)
  {
    MaybeJoinsPresent(t, keys);
    MaybeJoinsPresent(t, keys + [k]);
    PresentParamsSnoc(t, keys, k);
    JoinEmpty(PresentParams(t, keys), "&");
    if Present(t, k) {
      JoinSnoc(PresentParams(t, keys), Param(t, k), "&");
    } else {
      assert PresentParams(t, keys) + [] == PresentParams(t, keys);
    }
  }

  /** `maybe` is empty exactly when none of the requested keys has a value; otherwise it starts with a parameter. */
  lemma MaybeEmpty(t: Table, keys: seq<string>)
    ensures Maybe(t, keys) == [] <==> forall k :: k in keys ==> !Present(t, k)
    ensures Maybe(t, keys) != [] ==> "entry[" <= Maybe(t, keys)
  {
    MaybeJoinsPresent(t, keys);
    JoinEmpty(PresentParams(t, keys), "&");
    if PresentParams(t, keys) != [] {
      var p := PresentParams(t, keys)[0];
      assert p in PresentParams(t, keys);
    }
  }

  // ---------------------------------------------------------------------------
  // The handlers' command lines.
  // ---------------------------------------------------------------------------

  /** `ping`. */
  function Ping(t: Table): string {
    "curl -s " + Interp(t, "url") + "/api/v1/system/ping"
  }

  /** `auth`: credentials travel as headers. */
  function Auth(t: Table): string {
    "curl -s -X POST " + Interp(t, "url") + "/api/v1/sessions "
      + Header("X_USERNAME", Interp(t, "username")) + " " + Header("X_PASSWORD", Interp(t, "password"))
  }

  /** A curl request header, `-H 'name: value'`. */
  function Header(name: string, value: string): string {
    "-H '" + name + ": " + value + "'"
  }

  /** An endpoint URL with the api token as its `t` query parameter: `...?t=#{@options[:token]}`. */
  function Authed(endpoint: string, t: Table): string {
    endpoint + TokenQuery(t)
  }

  /** `?t=#{@options[:token]}`. */
  function TokenQuery(t: Table): string {
    "?t=" + Interp(t, "token")
  }

  /** `whoami`. */
  function Whoami(t: Table): string {
    "curl -s " + Authed(Interp(t, "url") + "/api/v1/me", t)
  }

  /** `projects`. */
  function Projects(t: Table): string {
    "curl -s " + Authed(Interp(t, "url") + "/api/v1/me/projects", t)
  }

  /** `entries`: one of four command lines, by which of `from` and `to` are set. */
  function Entries(t: Table): string {
    var endpoint := Interp(t, "url") + "/api/v1/me/entries";
    if Present(t, "from") && Present(t, "to") then
      "curl -s '" + Authed(endpoint, t) + "&from=" + Interp(t, "from") + "&to=" + Interp(t, "to") + "'"
    else if Present(t, "from") then
      "curl -s '" + Authed(endpoint, t) + "&from=" + Interp(t, "from") + "'"
    else if Present(t, "to") then
      "curl -s '" + Authed(endpoint, t) + "&to=" + Interp(t, "to") + "'"
    else
      "curl -s " + Authed(endpoint, t)
  }

  /** `entry`. */
  function Entry(t: Table): string {
    "curl -s " + Authed(Interp(t, "url") + "/api/v1/me/entries/" + Interp(t, "id"), t)
  }

  /** The `-d` data of `commit`: `maybe(:date)` follows the note with no separator. */
  function CommitBody(t: Table): string {
    "entry[time]=" + Interp(t, "time") + "&entry[note]=" + Interp(t, "note") + Maybe(t, ["date"])
  }

  /** `commit`. */
  function Commit(t: Table): string {
    "curl -s '" + Authed(Interp(t, "url") + "/api/v1/" + Interp(t, "handle") + "/projects/" + Interp(t, "code")
      + "/entries", t) + "' -d \"" + CommitBody(t) + "\""
  }

  /** The `-d` data of `edit`. */
  function EditBody(t: Table): string {
    Maybe(t, ["time", "date", "note"])
  }

  /** `edit`. */
  function Edit(t: Table): string {
    "curl -s -X PUT " + Authed(Interp(t, "url") + "/api/v1/me/entries/" + Interp(t, "id"), t)
      + " -d \"" + EditBody(t) + "\""
  }

  /** The command line the invoked handler runs. */
  function Request(c: Dispatch.Command, t: Table): string {
    match c
    case Ping => Ping(t)
    case Auth => Auth(t)
    case Whoami => Whoami(t)
    case Projects => Projects(t)
    case Entries => Entries(t)
    case Entry => Entry(t)
    case Commit => Commit(t)
    case Edit => Edit(t)
  }

  // ---------------------------------------------------------------------------
  // What the command lines carry.
  // ---------------------------------------------------------------------------

  /** Each filter as `&name=value`, in order. */
  function FilterString(filters: seq<(string, string)>): string
    decreases |filters|
  {
    if filters == [] then [] else "&" + filters[0].0 + "=" + filters[0].1 + FilterString(filters[1..])
  }

  /** The date filters of `entries`, field by field: `from` if set, then `to` if set. */
  function EntriesFilters(t: Table): seq<(string, string)> {
    (if Present(t, "from") then [("from", Interp(t, "from"))] else [])
      + (if Present(t, "to") then [("to", Interp(t, "to"))] else [])
  }

  /** The URL `entries` requests: the token, then each set filter. */
  function EntriesUrl(t: Table): string {
    Authed(Interp(t, "url") + "/api/v1/me/entries", t) + FilterString(EntriesFilters(t))
  }

  // The next four lemmas rewrite concrete concatenations into the shapes
  // `EntriesShape` compares, one small equation at a time.

  lemma FilterStringOne(k: string, v: string)
    ensures FilterString([(k, v)]) == "&" + k + "=" + v + []
  {
    assert [(k, v)][1..] == [];
  }

  lemma FilterStringTwo(k: string, v: string, k': string, v': string)
    ensures FilterString([(k, v), (k', v')]) == "&" + k + "=" + v + ("&" + k' + "=" + v' + [])
  {
    assert [(k, v), (k', v')][1..] == [(k', v')];
    FilterStringOne(k', v');
  }

  lemma FlattenTwo(c: string, a: string, f: string, g: string, q: string)
    ensures c + a + "&from=" + f + "&to=" + g + q
      == c + (a + ("&" + "from" + "=" + f + ("&" + "to" + "=" + g + []))) + q
  {
  }

  lemma FlattenOne(c: string, a: string, k: string, lit: string, v: string, q: string)
    requires lit == "&" + k + "="
    ensures c + a + lit + v + q == c + (a + ("&" + k + "=" + v + [])) + q
  {
  }

  /**
   * The four branches of `entries` are one rule: after the token, the URL
   * carries each of `from` and `to` exactly when it is set, in that order,
   * and it is quoted whenever a filter is present.
   */
  lemma EntriesShape(t: Table)
    ensures Entries(t) == if Present(t, "from") || Present(t, "to") then "curl -s '" + EntriesUrl(t) + "'"
                          else "curl -s " + EntriesUrl(t)
  {
    var a, from, to := Authed(Interp(t, "url") + "/api/v1/me/entries", t), Interp(t, "from"), Interp(t, "to");
    if Present(t, "from") && Present(t, "to") {
      assert EntriesFilters(t) == [("from", from), ("to", to)];
      FilterStringTwo("from", from, "to", to);
      FlattenTwo("curl -s '", a, from, to, "'");
    } else if Present(t, "from") {
      assert EntriesFilters(t) == [("from", from)];
      FilterStringOne("from", from);
      FlattenOne("curl -s '", a, "from", "&from=", from, "'");
    } else if Present(t, "to") {
      assert EntriesFilters(t) == [("to", to)];
      FilterStringOne("to", to);
      FlattenOne("curl -s '", a, "to", "&to=", to, "'");
    } else {
      assert EntriesFilters(t) == [];
      assert EntriesUrl(t) == a + [] == a;
    }
  }

  /** The query of `entries` names `from` and `to` exactly when they are set: four distinct shapes. */
  lemma EntriesFiltersPresent(t: Table)
    ensures (exists v :: ("from", v) in EntriesFilters(t)) <==> Present(t, "from")
    ensures (exists v :: ("to", v) in EntriesFilters(t)) <==> Present(t, "to")
    ensures |EntriesFilters(t)| == (if Present(t, "from") then 1 else 0) + (if Present(t, "to") then 1 else 0)
  {
    if Present(t, "from") {
      assert ("from", Interp(t, "from")) in EntriesFilters(t);
    }
    if Present(t, "to") {
      assert ("to", Interp(t, "to")) in EntriesFilters(t);
    }
  }

  /** `part` occurs somewhere in `s`. */
  predicate Contains(s: string, part: string) {
    exists i :: 0 <= i <= |s| && part <= s[i..]
  }

  lemma ContainsEnd(s: string, part: string)
    ensures Contains(s + part, part)
  {
    assert part <= (s + part)[|s|..];
  }

  lemma ContainsAppend(s: string, part: string, y: string)
    requires Contains(s, part)
    ensures Contains(s + y, part)
  {
    var i :| 0 <= i <= |s| && part <= s[i..];
    assert part <= (s + y)[i..];
  }

  lemma ContainsPrepend(y: string, s: string, part: string)
    requires Contains(s, part)
    ensures Contains(y + s, part)
  {
    var i :| 0 <= i <= |s| && part <= s[i..];
    assert (y + s)[|y| + i..] == s[i..];
  }

  /** The token part of an authenticated URL, with anything put before it. */
  lemma AuthedContainsToken(prefix: string, endpoint: string, t: Table)
    ensures Contains(prefix + Authed(endpoint, t), TokenQuery(t))
  {
    ContainsEnd(endpoint, TokenQuery(t));
    ContainsPrepend(prefix, Authed(endpoint, t), TokenQuery(t));
  }

  /** `ping` reads nothing but the server url. */
  lemma PingUsesOnlyUrl(t1: Table, t2: Table)
    requires Interp(t1, "url") == Interp(t2, "url")
    ensures Ping(t1) == Ping(t2)
  {
  }

  /** `auth` reads nothing but the server url and the two credentials. */
  lemma AuthUsesOnlyCredentials(t1: Table, t2: Table)
    requires Interp(t1, "url") == Interp(t2, "url")
    requires Interp(t1, "username") == Interp(t2, "username")
    requires Interp(t1, "password") == Interp(t2, "password")
    ensures Auth(t1) == Auth(t2)
  {
  }

  /** `auth` sends the username and the password as its two headers. */
  lemma AuthCarriesCredentials(t: Table)
    ensures Contains(Auth(t), Header("X_USERNAME", Interp(t, "username")))
    ensures Contains(Auth(t), Header("X_PASSWORD", Interp(t, "password")))
  {
    var head := "curl -s -X POST " + Interp(t, "url") + "/api/v1/sessions ";
    var user := Header("X_USERNAME", Interp(t, "username"));
    var pass := Header("X_PASSWORD", Interp(t, "password"));
    ContainsEnd(head, user);
    ContainsAppend(head + user, user, " ");
    ContainsAppend(head + user + " ", user, pass);
    ContainsEnd(head + user + " ", pass);
  }

  /** `part` is the last `|part|` characters of `s`. */
  predicate EndsWith(s: string, part: string) {
    |part| <= |s| && s[|s| - |part|..] == part
  }

  /** The last three pieces of a concatenation end it. */
  lemma EndsWithTail(a: string, b: string, c: string, d: string)
    ensures EndsWith(a + b + c + d, b + c + d)
  {
    var s := a + b + c + d;
    assert s == a + (b + c + d);
    assert s[|a|..] == b + c + d;
  }

  /** `commit` and `edit` end their command lines with their bodies as the double-quoted `-d` data. */
  lemma BodiesInRequests(t: Table)
    ensures EndsWith(Commit(t), "' -d \"" + CommitBody(t) + "\"")
    ensures EndsWith(Edit(t), " -d \"" + EditBody(t) + "\"")
  {
    EndsWithTail("curl -s '" + Authed(Interp(t, "url") + "/api/v1/" + Interp(t, "handle") + "/projects/"
      + Interp(t, "code") + "/entries", t), "' -d \"", CommitBody(t), "\"");
    EndsWithTail("curl -s -X PUT " + Authed(Interp(t, "url") + "/api/v1/me/entries/" + Interp(t, "id"), t),
      " -d \"", EditBody(t), "\"");
  }

  /** Every handler that talks to the user's account passes the token as the `t` query parameter. */
  lemma AuthenticatedCarryToken(c: Dispatch.Command, t: Table)
    requires c != Dispatch.Ping && c != Dispatch.Auth
    ensures Contains(Request(c, t), TokenQuery(t))
  {
    var url, id, x := Interp(t, "url"), Interp(t, "id"), TokenQuery(t);
    match c {
      case Whoami =>
        AuthedContainsToken("curl -s ", url + "/api/v1/me", t);
      case Projects =>
        AuthedContainsToken("curl -s ", url + "/api/v1/me/projects", t);
      case Entries =>
        EntriesShape(t);
        AuthedContainsToken("", url + "/api/v1/me/entries", t);
        assert "" + Authed(url + "/api/v1/me/entries", t) == Authed(url + "/api/v1/me/entries", t);
        ContainsAppend(Authed(url + "/api/v1/me/entries", t), x, FilterString(EntriesFilters(t)));
        if Present(t, "from") || Present(t, "to") {
          ContainsPrepend("curl -s '", EntriesUrl(t), x);
          ContainsAppend("curl -s '" + EntriesUrl(t), x, "'");
        } else {
          ContainsPrepend("curl -s ", EntriesUrl(t), x);
        }
      case Entry =>
        AuthedContainsToken("curl -s ", url + "/api/v1/me/entries/" + id, t);
      case Commit =>
        var a := "curl -s '" + Authed(url + "/api/v1/" + Interp(t, "handle") + "/projects/" + Interp(t, "code")
          + "/entries", t);
        AuthedContainsToken("curl -s '", url + "/api/v1/" + Interp(t, "handle") + "/projects/" + Interp(t, "code")
          + "/entries", t);
        ContainsAppend(a, x, "' -d \"");
        ContainsAppend(a + "' -d \"", x, CommitBody(t));
        ContainsAppend(a + "' -d \"" + CommitBody(t), x, "\"");
      case Edit =>
        var a := "curl -s -X PUT " + Authed(url + "/api/v1/me/entries/" + id, t);
        AuthedContainsToken("curl -s -X PUT ", url + "/api/v1/me/entries/" + id, t);
        ContainsAppend(a, x, " -d \"");
        ContainsAppend(a + " -d \"", x, EditBody(t));
        ContainsAppend(a + " -d \"" + EditBody(t), x, "\"");
    }
  }

  /**
   * The `commit` body: the note is followed directly by `entry[date]=...`
   * when a date is set, with no `&` between them.
   */
  lemma CommitBodyShape(t: Table)
    ensures CommitBody(t) == "entry[time]=" + Interp(t, "time") + "&entry[note]=" + Interp(t, "note")
      + (if Present(t, "date") then "entry[date]=" + Interp(t, "date") else "")
  {
    MaybeSnoc(t, [], "date");
    assert [] + ["date"] == ["date"];
    assert Maybe(t, []) == [];
  }

  /** A `--time` flag reaches the `edit` body first, as its decimal minute count. */
  lemma EditTimeIsMinutes(t: Table, m: nat)
    requires "time" in t && t["time"] == Some(Minutes(m))
    ensures "entry[time]=" + Duration.DecimalString(m) <= EditBody(t)
    ensures Duration.DigitsValue(Interp(t, "time")) == m
  {
    var first := "entry[time]=" + Duration.DecimalString(m);
    assert Param(t, "time") == first;
    MaybeSnoc(t, [], "time");
    MaybeSnoc(t, ["time"], "date");
    MaybeSnoc(t, ["time", "date"], "note");
    assert [] + ["time"] == ["time"];
    assert Maybe(t, []) == [];
    assert ["time"] + ["date"] == ["time", "date"];
    assert ["time", "date"] + ["note"] == ["time", "date", "note"];
    assert Maybe(t, ["time"]) == first;
    assert first <= Maybe(t, ["time", "date"]);
  }

  /** The `edit` body is empty exactly when none of time, date and note is set. */
  lemma EditBodyEmpty(t: Table)
    ensures EditBody(t) == [] <==> !Present(t, "time") && !Present(t, "date") && !Present(t, "note")
  {
    MaybeEmpty(t, ["time", "date", "note"]);
  }
}
