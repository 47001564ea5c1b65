/** The pure part of `Database.connect` (src/core/database.ts): resolving the
    host, port, name and credentials from the configuration and the process
    environment, forming the MongoDB connection string, and masking it for the log. */
module Database {
  import opened Results
  import opened Numbers

  /** A configuration property as `connect` sees it: an `{ env: NAME }` object
      naming an environment variable, or a plain value. */
  datatype Setting = FromEnv(variable: string) | Text(text: string) | Number(n: int) | Undefined | Null

  /** The process environment: variable names to values; an absent name is unset. */
  type Environment = map<string, string>

  /** `String(value)` of a plain value. */
  function ScalarText(v: Setting): string
    requires !v.FromEnv?
  {
    match v
    case Text(s) => s
    case Number(n) => ShowInt(n)
    case Undefined => "undefined"
    case Null => "null"
  }

  /** JavaScript truthiness of a plain value. */
  predicate ScalarTruthy(v: Setting)
    requires !v.FromEnv?
  {
    match v
    case Text(s) => s != ""
    case Number(n) => n != 0
    case Undefined => false
    case Null => false
  }

  /** Host, port and name: an environment variable `|| fallback`, or `String(value)`. */
  function Resolve(setting: Setting, env: Environment, fallback: string): (r: string)
    ensures setting.FromEnv? && fallback != "" ==> r != ""
    ensures setting.FromEnv? && setting.variable in env && env[setting.variable] != "" ==> r == env[setting.variable]
    ensures setting.FromEnv? && r != fallback ==> setting.variable in env && r == env[setting.variable]
    ensures !setting.FromEnv? ==> r == ScalarText(setting)
  {
    if setting.FromEnv? then
      var variable := setting.variable;
      if variable in env && env[variable] != "" then env[variable] else fallback
    else ScalarText(setting)
  }

  /** User and password: the environment variable as it is (possibly `undefined`),
      or `String(value)` for a truthy value and `undefined` otherwise. */
  function ResolveOptional(setting: Setting, env: Environment): (r: Option<string>)
    ensures !setting.FromEnv? ==> (r.Some? <==> ScalarTruthy(setting))
    ensures !setting.FromEnv? && r.Some? ==> r.value != "" && r.value == ScalarText(setting)
    ensures setting.FromEnv? ==> (r.Some? <==> setting.variable in env)
    ensures setting.FromEnv? && r.Some? ==> r.value == env[setting.variable]
  {
    if setting.FromEnv? then Property(env, setting.variable)
    else if ScalarTruthy(setting) then Some(ScalarText(setting))
    else None
  }

  /** The five properties `connect` reads. */
  datatype DbSettings = DbSettings(host: Setting, port: Setting, name: Setting, user: Setting, password: Setting)

  /** The resolved values the connection string is built from. */
  datatype Target = Target(host: string, port: string, name: string, user: Option<string>, password: Option<string>)

  const DefaultHost := "127.0.0.1"
  const DefaultPort := "27017"
  const DefaultName := "six-cities"

  /** An environment-driven setting whose variable is unset or empty, so the default applies. */
  predicate Unset(setting: Setting, env: Environment) {
    setting.FromEnv? && (setting.variable !in env || env[setting.variable] == "")
  }

  /** Each of host, port and name independently: its default when its variable
      is unset or empty, the variable's value when it is set, and `String(value)`
      for a plain value; user and password as `ResolveOptional` reads them. */
  function ResolveAll(settings: DbSettings, env: Environment): (t: Target)
    ensures settings.host.FromEnv? ==> t.host != ""
    ensures settings.port.FromEnv? ==> t.port != ""
    ensures settings.name.FromEnv? ==> t.name != ""
    ensures Unset(settings.host, env) ==> t.host == DefaultHost
    ensures Unset(settings.port, env) ==> t.port == DefaultPort
    ensures Unset(settings.name, env) ==> t.name == DefaultName
    ensures settings.host.FromEnv? && !Unset(settings.host, env) ==> t.host == env[settings.host.variable]
    ensures settings.port.FromEnv? && !Unset(settings.port, env) ==> t.port == env[settings.port.variable]
    ensures settings.name.FromEnv? && !Unset(settings.name, env) ==> t.name == env[settings.name.variable]
    ensures !settings.host.FromEnv? ==> t.host == ScalarText(settings.host)
    ensures !settings.port.FromEnv? ==> t.port == ScalarText(settings.port)
    ensures !settings.name.FromEnv? ==> t.name == ScalarText(settings.name)
    ensures t.user == ResolveOptional(settings.user, env) && t.password == ResolveOptional(settings.password, env)
  {
    Target(
      Resolve(settings.host, env, DefaultHost),
      Resolve(settings.port, env, DefaultPort),
      Resolve(settings.name, env, DefaultName),
      ResolveOptional(settings.user, env),
      ResolveOptional(settings.password, env))
  }

  /** `user && password`: both present and non-empty. */
  predicate HasCredentials(t: Target) {
    t.user.Some? && t.user.value != "" && t.password.Some? && t.password.value != ""
  }

  /** `host:port/name`. */
  function Address(t: Target): string {
    t.host + ":" + t.port + "/" + t.name
  }

  const Scheme := "mongodb://"
  const AuthQuery := "?authSource=admin"

  /** The connection string: with credentials and `authSource=admin` when both
      user and password are truthy, otherwise just the address. */
  function ConnectionString(t: Target): (s: string)
    ensures |s| >= |Scheme| && s[..|Scheme|] == Scheme
  {
    if HasCredentials(t) then Scheme + t.user.value + ":" + t.password.value + "@" + Address(t) + AuthQuery
    else Scheme + Address(t)
  }

  /** Ends with `suffix`. */
  predicate EndsWith(s: string, suffix: string) {
    |suffix| <= |s| && s[|s| - |suffix|..] == suffix
  }

  /** With an address free of `@` and `?`, the credentials and the
      `authSource=admin` query appear in the connection string exactly when
      user and password are both truthy, and the credentials then follow the scheme as `user:password@`. */
  lemma ConnectionStringShape(t: Target)
    requires '@' !in Address(t) && '?' !in Address(t)
    ensures '@' in ConnectionString(t) <==> HasCredentials(t)
    ensures EndsWith(ConnectionString(t), AuthQuery) <==> HasCredentials(t)
    ensures HasCredentials(t) ==> var creds := t.user.value + ":" + t.password.value + "@";
      |Scheme| + |creds| <= |ConnectionString(t)| && ConnectionString(t)[|Scheme|..|Scheme| + |creds|] == creds
  {
    var s := ConnectionString(t);
    if HasCredentials(t) {
      var creds := t.user.value + ":" + t.password.value + "@";
      assert s == Scheme + creds + Address(t) + AuthQuery;
      assert s[|Scheme| + |creds| - 1] == '@';
      assert s[|Scheme|..|Scheme| + |creds|] == creds;
    } else {
      assert s == Scheme + Address(t);
      SchemePlain();
      assert '@' !in s && '?' !in s;
      assert AuthQuery[0] == '?';
    }
  }

  /** The scheme holds neither `@` nor `?`. */
  lemma SchemePlain()
    ensures '@' !in Scheme && '?' !in Scheme
  {
  }

  /** Masking for the log: the regular expression `//.*@` replaced by `MaskText`. */
  const MaskText := "//***:***@"

  /** The characters JavaScript's `.` does not match. */
  predicate IsLineTerminator(c: char) {
    c == '\n' || c == '\r' || c == '\U{2028}' || c == '\U{2029}'
  }

  /** The first line terminator at or after `from`, or the end of `s`. */
  function LineEnd(s: string, from: nat): (e: nat)
    requires from <= |s|
    ensures from <= e <= |s|
    ensures forall k :: from <= k < e ==> !IsLineTerminator(s[k])
    ensures e < |s| ==> IsLineTerminator(s[e])
    decreases |s| - from
  {
    if from == |s| || IsLineTerminator(s[from]) then from else LineEnd(s, from + 1)
  }

  /** The last `@` in `s[lo..hi]`. */
  function LastAt(s: string, lo: nat, hi: nat): (r: Option<nat>)
    requires lo <= hi <= |s|
    ensures r.Some? ==> lo <= r.value < hi && s[r.value] == '@'
    ensures r.Some? ==> forall k :: r.value < k < hi ==> s[k] != '@'
    ensures r.None? ==> forall k :: lo <= k < hi ==> s[k] != '@'
    decreases hi - lo
  {
    if hi == lo then None
    else if s[hi - 1] == '@' then Some(hi - 1)
    else LastAt(s, lo, hi - 1)
  }

  /** The end (the `@`) of the match starting at `i`, if any: `//`, then the
      longest run of non-terminators that still ends in `@`. */
  function MatchAt(s: string, i: nat): (r: Option<nat>)
    requires i <= |s|
    ensures r.Some? ==> i + 2 <= r.value < |s| && s[i] == '/' && s[i + 1] == '/' && s[r.value] == '@'
    ensures r.Some? ==> forall k :: i + 2 <= k < r.value ==> !IsLineTerminator(s[k])
  {
    if i + 2 <= |s| && s[i] == '/' && s[i + 1] == '/' then LastAt(s, i + 2, LineEnd(s, i + 2)) else None
  }

  /** The leftmost match at or after `i`, as its start and its end. */
  function FindMatch(s: string, i: nat): (r: Option<(nat, nat)>)
    requires i <= |s|
    ensures r.Some? ==> i <= r.value.0 <= |s| && MatchAt(s, r.value.0) == Some(r.value.1)
    ensures r.Some? ==> forall k :: i <= k < r.value.0 ==> MatchAt(s, k).None?
    ensures r.None? ==> forall k :: i <= k <= |s| ==> MatchAt(s, k).None?
    decreases |s| - i
  {
    match MatchAt(s, i)
    case Some(j) => Some((i, j))
    case None => if i == |s| then None else FindMatch(s, i + 1)
  }

  /** The logged form of a string: its leftmost match replaced by `MaskText`. */
  function Mask(s: string): (r: string)
    ensures '@' !in s ==> r == s
  {
    match FindMatch(s, 0)
    case None => s
    case Some((i, j)) => s[..i] + MaskText + s[j + 1..]
  }

  /** Every environment variable unset, or set to the empty string: the default address and no credentials. */
  lemma UnsetEnvironmentDefaults(settings: DbSettings, env: Environment)
    requires settings.host.FromEnv? && settings.port.FromEnv? && settings.name.FromEnv?
    requires settings.user.FromEnv? && settings.password.FromEnv?
    requires forall v :: v in env ==> env[v] == ""
    ensures ConnectionString(ResolveAll(settings, env)) == "mongodb://127.0.0.1:27017/six-cities"
  {
    DefaultAddress(ResolveAll(settings, env));
  }

  lemma DefaultAddress(t: Target)
    requires t.host == DefaultHost && t.port == DefaultPort && t.name == DefaultName
    requires !HasCredentials(t)
    ensures ConnectionString(t) == "mongodb://127.0.0.1:27017/six-cities"
  {
    assert Address(t) == DefaultHost + ":" + DefaultPort + "/" + DefaultName;
    assert ConnectionString(t) == Scheme + Address(t);
    DefaultLiteral();
  }

  /** The default connection string, spelled out. */
  lemma DefaultLiteral()
    ensures Scheme + DefaultHost + ":" + DefaultPort + "/" + DefaultName == "mongodb://127.0.0.1:27017/six-cities"
  {
  }

  /** The logged form of a connection string with credentials shows the scheme,
      a fixed `***:***` and the address: neither the user nor the password,
      provided they hold no line terminator and the address no `@`. */
  lemma MaskHidesCredentials(t: Target)
    requires HasCredentials(t)
    requires forall k :: 0 <= k < |t.user.value| ==> !IsLineTerminator(t.user.value[k])
    requires forall k :: 0 <= k < |t.password.value| ==> !IsLineTerminator(t.password.value[k])
    requires '@' !in Address(t)
    ensures Mask(ConnectionString(t)) == "mongodb:" + MaskText + Address(t) + AuthQuery
  {
    var credentials := t.user.value + ":" + t.password.value;
    CredentialsPlain(t.user.value, t.password.value);
    CredentialedShape(t);
    assert '@' !in AuthQuery;
    MaskOfCredentials("mongodb:", credentials, Address(t) + AuthQuery);
  }

  /** `user:password` has a line terminator only where the user or the password has one. */
  lemma CredentialsPlain(user: string, password: string)
    requires forall k :: 0 <= k < |user| ==> !IsLineTerminator(user[k])
    requires forall k :: 0 <= k < |password| ==> !IsLineTerminator(password[k])
    ensures var credentials := user + ":" + password;
      forall k :: 0 <= k < |credentials| ==> !IsLineTerminator(credentials[k])
  {
    var credentials := user + ":" + password;
    forall k | 0 <= k < |credentials|
      ensures !IsLineTerminator(credentials[k])
    {
      if k < |user| {
        assert credentials[k] == user[k];
      } else if k > |user| {
        assert credentials[k] == password[k - |user| - 1];
      }
    }
  }

  /** A connection string with credentials, cut at the `//` and the `@`. */
  lemma CredentialedShape(t: Target)
    requires HasCredentials(t)
    ensures ConnectionString(t) == "mongodb:" + "//" + (t.user.value + ":" + t.password.value) + "@" + (Address(t) + AuthQuery)
  {
  }

  /** `pre//credentials@rest` with no `/` before the `//`, no line terminator in
      the credentials and no `@` after them is logged as `pre`, `MaskText`, `rest`. */
  lemma MaskOfCredentials(pre: string, credentials: string, rest: string)
    requires '/' !in pre && '@' !in rest
    requires forall k :: 0 <= k < |credentials| ==> !IsLineTerminator(credentials[k])
    ensures Mask(pre + "//" + credentials + "@" + rest) == pre + MaskText + rest
  {
    var s := pre + "//" + credentials + "@" + rest;
    var i, at := |pre|, |pre| + 2 + |credentials|;
    forall k | 0 <= k < i
      ensures MatchAt(s, k).None?
    {
      assert s[k] == pre[k];
    }
    MatchOfCredentials(pre, credentials, rest);
    assert FindMatch(s, i) == Some((i, at));
    FindMatchFrom(s, 0, i);
    assert s[..i] == pre;
    assert s[at + 1..] == rest;
  }

  /** The match at the `//` ends at the `@` that closes the credentials. */
  lemma MatchOfCredentials(pre: string, credentials: string, rest: string)
    requires '@' !in rest
    requires forall k :: 0 <= k < |credentials| ==> !IsLineTerminator(credentials[k])
    ensures var s := pre + "//" + credentials + "@" + rest;
      MatchAt(s, |pre|) == Some(|pre| + 2 + |credentials|)
  {
    var s := pre + "//" + credentials + "@" + rest;
    var i, at := |pre|, |pre| + 2 + |credentials|;
    assert s[i] == '/' && s[i + 1] == '/' && s[at] == '@';
    forall k | i + 2 <= k < at
      ensures !IsLineTerminator(s[k])
    {
      assert s[k] == credentials[k - i - 2];
    }
    forall k | at < k < |s|
      ensures s[k] != '@'
    {
      assert s[k] == rest[k - at - 1];
    }
    var e := LineEnd(s, i + 2);
    assert at < e;
    var m := LastAt(s, i + 2, e);
    assert m.Some? && m.value >= at;
  }

  /** A match at `i` with none before it, from `from` on, is the leftmost one. */
  lemma FindMatchFrom(s: string, from: nat, i: nat)
    requires from <= i <= |s|
    requires forall k :: from <= k < i ==> MatchAt(s, k).None?
    ensures FindMatch(s, from) == FindMatch(s, i)
  {
    var r, q := FindMatch(s, from), FindMatch(s, i);
    if r.Some? {
      var p := r.value.0;
      assert i <= p && MatchAt(s, p).Some?;
      assert q.Some? && q.value.0 <= p;
      assert q.value.0 == p;
    } else {
      assert q.None?;
    }
  }

  /** Credentials taken from the environment are used exactly when both
      variables are set to non-empty values. */
  lemma EnvironmentCredentials(settings: DbSettings, env: Environment)
    requires settings.user.FromEnv? && settings.password.FromEnv?
    ensures var u, p := settings.user.variable, settings.password.variable;
      HasCredentials(ResolveAll(settings, env)) <==> (u in env && env[u] != "" && p in env && env[p] != "")
  {
  }

  /** Without credentials, and with no `@` in the address, the logged string is the connection string. */
  lemma MaskWithoutCredentials(t: Target)
    requires !HasCredentials(t)
    requires '@' !in Address(t)
    ensures Mask(ConnectionString(t)) == ConnectionString(t)
  {
    assert '@' !in Scheme;
  }

  /** `.` stops at a line terminator: a password spanning two lines leaves the
      credentials in the logged string. */
  lemma MaskKeepsMultilineCredentials()
    ensures var t := Target("h", "1", "n", Some("u"), Some("p\nq"));
      Mask(ConnectionString(t)) == ConnectionString(t)
  {
    var t := Target("h", "1", "n", Some("u"), Some("p\nq"));
    assert ConnectionString(t) == Scheme + "u" + ":" + "p\nq" + "@" + ("h" + ":" + "1" + "/" + "n") + AuthQuery;
    MultilineLiteral();
    NoMatchAcrossLines("mongodb://u:p\nq@h:1/n?authSource=admin");
  }

  lemma MultilineLiteral()
    ensures Scheme + "u" + ":" + "p\nq" + "@" + ("h" + ":" + "1" + "/" + "n") + AuthQuery
      == "mongodb://u:p\nq@h:1/n?authSource=admin"
  {
  }

  lemma NoMatchAcrossLines(s: string)
    requires s == "mongodb://u:p\nq@h:1/n?authSource=admin"
    ensures Mask(s) == s
  {
    assert s[10] == 'u' && s[11] == ':' && s[12] == 'p' && s[13] == '\n';
    assert LineEnd(s, 10) == 13;
    assert LastAt(s, 10, 13).None?;
    forall k | 0 <= k <= |s|
      ensures MatchAt(s, k).None?
    {
      if k != 8 {
        assert !(k + 2 <= |s| && s[k] == '/' && s[k + 1] == '/');
      }
    }
  }
}
