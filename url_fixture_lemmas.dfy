/** Properties of the fixture reader: how lines become entries, how annotations compose
    into a record, and how `auth` and `host` are built. */
module UrlFixtureLemmas {
  import opened Wrappers
  import opened JsStrings
  import opened UrlFixture

  // ---------------------------------------------------------------------------------------
  // Lines and entries
  // ---------------------------------------------------------------------------------------

  /** Reading two runs of lines one after the other gives the entries of each, in order. */
  lemma {:induction false} EntriesConcat(a: seq<string>, b: seq<string>)
    ensures Entries(a + b) == Entries(a) + Entries(b)
    decreases |b|
  {
    if b != [] {
      var init := b[..|b| - 1];
      assert (a + b)[..|a + b| - 1] == a + init;
      assert (a + b)[|a + b| - 1] == b[|b| - 1];
      EntriesConcat(a, init);
      AppendAssoc(Entries(a), Entries(init), Entries([b[|b| - 1]]));
    } else {
      assert a + b == a;
    }
  }

  /** A skipped line contributes nothing, wherever it stands. */
  lemma SkippedLine(a: seq<string>, line: string, b: seq<string>)
    requires line == [] || line[0] == '#' || ' ' !in line
    ensures Entries(a + [line] + b) == Entries(a + b)
  {
    EntriesConcat(a + [line], b);
    EntriesConcat(a, [line]);
    EntriesConcat(a, b);
    assert [line][..0] == [];
  }

  /** An accepted line contributes exactly one entry, in its place, whose URL is the line's
      first space-separated token. */
  lemma AcceptedLine(a: seq<string>, line: string, b: seq<string>)
    requires line != [] && line[0] != '#' && ' ' in line
    ensures Entries(a + [line] + b)
         == Entries(a) + [(Split(line, ' ')[0], LineEntry(line).value.1)] + Entries(b)
  {
    EntriesConcat(a + [line], b);
    EntriesConcat(a, [line]);
    assert [line][..0] == [];
  }

  /** Fixture texts joined by a newline give the entries of each, in order. */
  lemma FixtureConcat(first: string, second: string)
    ensures Entries(Split(first + "\n" + second, '\n'))
         == Entries(Split(first, '\n')) + Entries(Split(second, '\n'))
  {
    SplitConcat(first, second, '\n');
    EntriesConcat(Split(first, '\n'), Split(second, '\n'));
  }

  // ---------------------------------------------------------------------------------------
  // Annotations
  // ---------------------------------------------------------------------------------------

  /** The first colon separates key and value, so writing `key:value` and parsing it again
      gives back the key and the whole value, colons included. */
  lemma AnnotationRoundTrip(key: string, value: string)
    requires key != [] && key[0] != '#' && ':' !in key
    ensures ParseAnnotation(key + ":" + value) == Some((key, value))
  {
    var segment := key + ":" + value;
    IndexOfAfter(key, ':', value);
    assert segment[0] == key[0];
    assert segment[..|key|] == key;
    assert segment[|key| + 1..] == value;
  }

  /** Annotations of a line split anywhere are applied first the one part, then the other. */
  lemma {:induction false} ApplyAllConcat(e: Expected, a: seq<string>, b: seq<string>)
    ensures ApplyAll(e, a + b) == ApplyAll(ApplyAll(e, a), b)
    decreases |b|
  {
    if b != [] {
      var init := b[..|b| - 1];
      assert (a + b)[..|a + b| - 1] == a + init;
      assert (a + b)[|a + b| - 1] == b[|b| - 1];
      ApplyAllConcat(e, a, init);
    } else {
      assert a + b == a;
    }
  }

  /** A segment that is no annotation (empty, starting with `#`, without a colon or starting
      with one) or has an unknown key is skipped, and the segments after it still apply. */
  lemma IgnoredSegment(e: Expected, a: seq<string>, segment: string, b: seq<string>)
    requires ParseAnnotation(segment).None? || KeyOf(ParseAnnotation(segment).value.0) == Unknown
    ensures ApplyAll(e, a + [segment] + b) == ApplyAll(e, a + b)
  {
    ApplyAllConcat(e, a + [segment], b);
    ApplyAllConcat(e, a, [segment]);
    ApplyAllConcat(e, a, b);
    assert [segment][..0] == [];
  }

  /** Whether a segment is an annotation with the given key. */
  predicate HasKey(segment: string, key: Key) {
    ParseAnnotation(segment).Some? && KeyOf(ParseAnnotation(segment).value.0) == key
  }

  /** The keys whose annotation overwrites a single field. */
  predicate Overwrites(key: Key) {
    !(key.User? || key.Password? || key.Unknown?)
  }

  /** The field an overwriting key writes. */
  function Field(e: Expected, key: Key): Option<string>
    requires Overwrites(key)
  {
    match key
    case Scheme => e.protocol
    case Hostname => e.hostname
    case Port => e.port
    case Pathname => e.pathname
    case Query => e.query
    case Fragment => e.fragment
  }

  /** What an overwriting key stores for a value: the scheme gets its `:`. */
  function Stored(key: Key, value: string): string {
    if key == Scheme then value + ":" else value
  }

  /** One `switch` case sets the field of its own overwriting key and leaves the fields of
      the other overwriting keys alone. */
  lemma FieldWrite(x: Expected, written: Key, value: string, key: Key)
    requires Overwrites(key)
    ensures Field(Write(x, written, value), key)
         == if written == key then Some(Stored(key, value)) else Field(x, key)
  {
    match written
    case Scheme =>
    case User =>
    case Password =>
    case Hostname =>
    case Port =>
    case Pathname =>
    case Query =>
    case Fragment =>
    case Unknown =>
  }

  /** One segment sets the field of its overwriting key and leaves the fields of the other
      overwriting keys alone. */
  lemma FieldStep(x: Expected, segment: string, key: Key)
    requires Overwrites(key)
    ensures Field(ApplyAnnotation(x, segment), key)
         == if HasKey(segment, key) then Some(Stored(key, ParseAnnotation(segment).value.1))
            else Field(x, key)
  {
    match ParseAnnotation(segment)
    case None =>
    case Some((name, value)) =>
      FieldWrite(x, KeyOf(name), value, key);
  }

  /** Segments without a given overwriting key leave its field alone. */
  lemma {:induction false} FieldUntouched(e: Expected, segments: seq<string>, key: Key)
    requires Overwrites(key)
    requires forall k :: 0 <= k < |segments| ==> !HasKey(segments[k], key)
    ensures Field(ApplyAll(e, segments), key) == Field(e, key)
    decreases |segments|
  {
    if segments != [] {
      var init := segments[..|segments| - 1];
      FieldUntouched(e, init, key);
      FieldStep(ApplyAll(e, init), segments[|segments| - 1], key);
    }
  }

  /** For the overwriting keys the last occurrence wins. */
  lemma LastWriteWins(e: Expected, a: seq<string>, segment: string, b: seq<string>,
                      key: Key, value: string)
    requires Overwrites(key)
    requires HasKey(segment, key) && ParseAnnotation(segment).value.1 == value
    requires forall k :: 0 <= k < |b| ==> !HasKey(b[k], key)
    ensures Field(ApplyAll(e, a + [segment] + b), key) == Some(Stored(key, value))
  {
    ApplyAllConcat(e, a + [segment], b);
    ApplyAllConcat(e, a, [segment]);
    assert [segment][..0] == [];
    FieldStep(ApplyAll(e, a), segment, key);
    FieldUntouched(ApplyAll(e, a + [segment]), b, key);
  }

  /** Once a segment with an overwriting key is read, its field is set for good. */
  lemma {:induction false} FieldWritten(e: Expected, segments: seq<string>, key: Key, k: nat)
    requires Overwrites(key)
    requires k < |segments| && HasKey(segments[k], key)
    ensures Field(ApplyAll(e, segments), key).Some?
    decreases |segments|
  {
    var init := segments[..|segments| - 1];
    FieldStep(ApplyAll(e, init), segments[|segments| - 1], key);
    if k < |segments| - 1 {
      FieldWritten(e, init, key, k);
    }
  }

  // ---------------------------------------------------------------------------------------
  // Auth
  // ---------------------------------------------------------------------------------------

  /** Whether some segment is a `u` or `pass` annotation. */
  function TouchesAuth(segments: seq<string>): bool
    decreases |segments|
  {
    if segments == [] then false
    else
      var last := segments[|segments| - 1];
      HasKey(last, User) || HasKey(last, Password) || TouchesAuth(segments[..|segments| - 1])
  }

  /** The users of the `u` annotations, the last one first. */
  function Users(segments: seq<string>): (r: string)
    ensures !TouchesAuth(segments) ==> r == ""
    decreases |segments|
  {
    if segments == [] then ""
    else
      var last := segments[|segments| - 1];
      (if HasKey(last, User) then ParseAnnotation(last).value.1 else "")
        + Users(segments[..|segments| - 1])
  }

  /** `:` and the password of each `pass` annotation, in order. */
  function Passwords(segments: seq<string>): (r: string)
    ensures !TouchesAuth(segments) ==> r == ""
    decreases |segments|
  {
    if segments == [] then ""
    else
      var last := segments[|segments| - 1];
      Passwords(segments[..|segments| - 1])
        + (if HasKey(last, Password) then ":" + ParseAnnotation(last).value.1 else "")
  }

  /** How one segment changes `auth`, seen on its own. */
  function AuthUpdate(auth: Option<string>, segment: string): Option<string> {
    if HasKey(segment, User) then Some(ParseAnnotation(segment).value.1 + auth.GetOr(""))
    else if HasKey(segment, Password) then Some(auth.GetOr("") + ":" + ParseAnnotation(segment).value.1)
    else auth
  }

  /** How a run of segments changes `auth`, seen on its own. */
  function AuthFold(auth: Option<string>, segments: seq<string>): Option<string>
    decreases |segments|
  {
    if segments == [] then auth
    else AuthUpdate(AuthFold(auth, segments[..|segments| - 1]), segments[|segments| - 1])
  }

  /** How one segment changes `auth`, read off the record. */
  lemma AuthStep(x: Expected, segment: string)
    ensures ApplyAnnotation(x, segment).auth == AuthUpdate(x.auth, segment)
  {
    match ParseAnnotation(segment)
    case None =>
    case Some((name, value)) =>
      match KeyOf(name)
      case Scheme =>
      case User =>
      case Password =>
      case Hostname =>
      case Port =>
      case Pathname =>
      case Query =>
      case Fragment =>
      case Unknown =>
  }

  /** `auth` evolves independently of the other fields. */
  lemma {:induction false} AuthIsolated(e: Expected, segments: seq<string>)
    ensures ApplyAll(e, segments).auth == AuthFold(e.auth, segments)
    decreases |segments|
  {
    if segments != [] {
      var init := segments[..|segments| - 1];
      AuthIsolated(e, init);
      AuthStep(ApplyAll(e, init), segments[|segments| - 1]);
    }
  }

  /** The closed form of `AuthFold` that `AuthFoldClosed` establishes. */
  function AuthClosed(auth: Option<string>, segments: seq<string>): Option<string> {
    if auth.None? && !TouchesAuth(segments) then None
    else Some(Users(segments) + auth.GetOr("") + Passwords(segments))
  }

  /** The closed form survives a trailing `u` annotation. */
  lemma AuthClosedUser(auth: Option<string>, segments: seq<string>)
    requires segments != [] && HasKey(segments[|segments| - 1], User)
    requires AuthFold(auth, segments[..|segments| - 1]) == AuthClosed(auth, segments[..|segments| - 1])
    ensures AuthFold(auth, segments) == AuthClosed(auth, segments)
  {
    var init := segments[..|segments| - 1];
    var v := ParseAnnotation(segments[|segments| - 1]).value.1;
    var users, base, passwords := Users(init), auth.GetOr(""), Passwords(init);
    assert AuthFold(auth, init).GetOr("") == users + base + passwords;
    assert AuthFold(auth, segments) == Some(v + AuthFold(auth, init).GetOr(""));
    assert TouchesAuth(segments);
    assert Users(segments) == v + users;
    assert Passwords(segments) == passwords + "" == passwords;
    AppendAssoc(v, users + base, passwords);
    AppendAssoc(v, users, base);
    assert AuthClosed(auth, segments) == Some(Users(segments) + base + Passwords(segments));
  }

  /** The closed form survives a trailing `pass` annotation. */
  lemma AuthClosedPassword(auth: Option<string>, segments: seq<string>)
    requires segments != [] && HasKey(segments[|segments| - 1], Password)
    requires AuthFold(auth, segments[..|segments| - 1]) == AuthClosed(auth, segments[..|segments| - 1])
    ensures AuthFold(auth, segments) == AuthClosed(auth, segments)
  {
    var init := segments[..|segments| - 1];
    var v := ParseAnnotation(segments[|segments| - 1]).value.1;
    var users, base, passwords := Users(init), auth.GetOr(""), Passwords(init);
    assert AuthFold(auth, init).GetOr("") == users + base + passwords;
    assert AuthFold(auth, segments) == Some(AuthFold(auth, init).GetOr("") + ":" + v);
    assert TouchesAuth(segments);
    assert Users(segments) == "" + users == users;
    assert Passwords(segments) == passwords + (":" + v);
    AppendAssoc(users + base + passwords, ":", v);
    AppendAssoc(users + base, passwords, ":" + v);
    assert AuthClosed(auth, segments) == Some(Users(segments) + base + Passwords(segments));
  }

  /** The closed form survives any other trailing segment. */
  lemma AuthClosedOther(auth: Option<string>, segments: seq<string>)
    requires segments != [] && !HasKey(segments[|segments| - 1], User)
    requires !HasKey(segments[|segments| - 1], Password)
    requires AuthFold(auth, segments[..|segments| - 1]) == AuthClosed(auth, segments[..|segments| - 1])
    ensures AuthFold(auth, segments) == AuthClosed(auth, segments)
  {
    var init := segments[..|segments| - 1];
    assert TouchesAuth(segments) == TouchesAuth(init);
    assert Users(segments) == "" + Users(init) == Users(init);
    assert Passwords(segments) == Passwords(init) + "" == Passwords(init);
  }

  /** `AuthFold` has the closed form `AuthClosed`. */
  lemma {:induction false} AuthFoldClosed(auth: Option<string>, segments: seq<string>)
    ensures AuthFold(auth, segments) == AuthClosed(auth, segments)
    decreases |segments|
  {
    if segments != [] {
      var last := segments[|segments| - 1];
      AuthFoldClosed(auth, segments[..|segments| - 1]);
      if HasKey(last, User) {
        AuthClosedUser(auth, segments);
      } else if HasKey(last, Password) {
        AuthClosedPassword(auth, segments);
      } else {
        AuthClosedOther(auth, segments);
      }
    } else if auth.Some? {
      assert "" + auth.value + "" == auth.value;
    }
  }

  /** `auth` ends up as the users (last first), then what it held before, then the
      passwords; it stays null only when it was null and no `u` or `pass` occurs. */
  lemma AuthComposition(e: Expected, segments: seq<string>)
    ensures ApplyAll(e, segments).auth
         == if e.auth.None? && !TouchesAuth(segments) then None
            else Some(Users(segments) + e.auth.GetOr("") + Passwords(segments))
  {
    AuthIsolated(e, segments);
    AuthFoldClosed(e.auth, segments);
  }

  /** The annotations `u:user` and `pass:password` parse as such. */
  lemma AuthAnnotations(user: string, password: string)
    ensures HasKey("u:" + user, User) && ParseAnnotation("u:" + user).value.1 == user
    ensures HasKey("pass:" + password, Password) && ParseAnnotation("pass:" + password).value.1 == password
  {
    AnnotationRoundTrip("u", user);
    AnnotationRoundTrip("pass", password);
    assert "u:" + user == "u" + ":" + user;
    assert "pass:" + password == "pass" + ":" + password;
  }

  /** Reading a `u` then a `pass` annotation gives the same record as the other order. */
  lemma AuthSwap(x: Expected, user: string, password: string)
    ensures ApplyAll(x, ["u:" + user, "pass:" + password])
         == ApplyAll(x, ["pass:" + password, "u:" + user])
  {
    var u, p := "u:" + user, "pass:" + password;
    AuthAnnotations(user, password);
    assert [u, p][..1] == [u];
    assert [p, u][..1] == [p];
    assert [u][..0] == [] && [p][..0] == [];
    var base := x.auth.GetOr("");
    assert ApplyAll(x, [u]) == ApplyAnnotation(x, u);
    assert ApplyAll(x, [p]) == ApplyAnnotation(x, p);
    assert ApplyAll(x, [u, p]) == ApplyAnnotation(ApplyAll(x, [u]), p);
    assert ApplyAll(x, [p, u]) == ApplyAnnotation(ApplyAll(x, [p]), u);
    AppendAssoc(user, base, ":" + password);
    AppendAssoc(user + base, ":", password);
    AppendAssoc(base, ":", password);
  }

  /** A `u` and a `pass` annotation next to each other can be read in either order: the
      whole record is the same. */
  lemma AuthOrderInsensitive(e: Expected, a: seq<string>, user: string, password: string,
                             b: seq<string>)
    ensures ApplyAll(e, a + ["u:" + user, "pass:" + password] + b)
         == ApplyAll(e, a + ["pass:" + password, "u:" + user] + b)
  {
    var u, p := "u:" + user, "pass:" + password;
    ApplyAllConcat(e, a + [u, p], b);
    ApplyAllConcat(e, a, [u, p]);
    ApplyAllConcat(e, a + [p, u], b);
    ApplyAllConcat(e, a, [p, u]);
    AuthSwap(ApplyAll(e, a), user, password);
  }

  /** `u:a pass:b` and `pass:b u:a` both give `a:b`; a lone `pass:b` gives `:b`. */
  lemma AuthExamples(user: string, password: string)
    ensures ApplyAll(INITIAL, ["u:" + user, "pass:" + password]).auth == Some(user + ":" + password)
    ensures ApplyAll(INITIAL, ["pass:" + password, "u:" + user]).auth == Some(user + ":" + password)
    ensures ApplyAll(INITIAL, ["pass:" + password]).auth == Some(":" + password)
  {
    var u, p := "u:" + user, "pass:" + password;
    AuthAnnotations(user, password);
    AuthSwap(INITIAL, user, password);
    assert [u, p][..1] == [u];
    assert [u][..0] == [] && [p][..0] == [];
    assert ApplyAll(INITIAL, [u]) == ApplyAnnotation(INITIAL, u);
    assert ApplyAll(INITIAL, [p]) == ApplyAnnotation(INITIAL, p);
    assert ApplyAll(INITIAL, [u, p]) == ApplyAnnotation(ApplyAll(INITIAL, [u]), p);
    assert ApplyAll(INITIAL, [u]).auth == Some(user + "");
    assert user + "" == user;
    assert ApplyAll(INITIAL, [p]).auth == Some("" + ":" + password);
    assert "" + ":" + password == ":" + password;
  }

  // ---------------------------------------------------------------------------------------
  // Host
  // ---------------------------------------------------------------------------------------

  /** No token after the first is a `port` annotation. */
  predicate NoPortAnnotation(tokens: seq<string>) {
    forall k :: 1 <= k < |tokens| ==> !HasKey(tokens[k], Port)
  }

  /** An entry has a port exactly when its line has a `port` annotation; so without one
      `host` is the hostname, null included, and with one it is the hostname, `:` and the
      port. */
  lemma HostOfLine(line: string)
    requires LineEntry(line).Some?
    ensures LineEntry(line).value.1.port.None? <==> NoPortAnnotation(Split(line, ' '))
    ensures NoPortAnnotation(Split(line, ' ')) ==> LineEntry(line).value.1.host == LineEntry(line).value.1.hostname
    ensures !NoPortAnnotation(Split(line, ' ')) ==>
              var e := LineEntry(line).value.1;
              e.port.Some? && e.host == Some(JsText(e.hostname) + ":" + e.port.value)
  {
    var tokens := Split(line, ' ');
    var rest := tokens[1..];
    var built := ApplyAll(INITIAL, rest);
    assert LineEntry(line).value.1 == FinishHost(built);
    assert Field(built, Port) == built.port;
    if NoPortAnnotation(tokens) {
      assert forall k :: 0 <= k < |rest| ==> !HasKey(rest[k], Port) by {
        forall k | 0 <= k < |rest| ensures !HasKey(rest[k], Port) {
          assert rest[k] == tokens[k + 1];
        }
      }
      FieldUntouched(INITIAL, rest, Port);
    } else {
      var k :| 1 <= k < |tokens| && HasKey(tokens[k], Port);
      assert rest[k - 1] == tokens[k];
      FieldWritten(INITIAL, rest, Port, k - 1);
    }
  }

  /** A URL followed by a space and one more token splits into exactly those two tokens. */
  lemma SplitTwo(url: string, token: string)
    requires ' ' !in url && ' ' !in token
    ensures Split(url + " " + token, ' ') == [url, token]
  {
    SplitConcat(url, token, ' ');
    SplitWhole(url, ' ');
    SplitWhole(token, ' ');
  }

  /** A line whose only annotation is empty yields the URL and the initial record
      unchanged: every field null except `slashes`, and no `fragment` key. */
  lemma BareLine(url: string)
    requires url != [] && url[0] != '#' && ' ' !in url
    ensures LineEntry(url + " ") == Some((url, INITIAL))
  {
    SplitTwo(url, "");
    assert url + " " == url + " " + "";
    assert Split(url + " ", ' ')[1..] == [""];
    assert ApplyAll(INITIAL, [""]) == ApplyAnnotation(ApplyAll(INITIAL, []), "");
  }

  /** A `port` annotation without an `h` annotation: the hostname stays null, and `host`
      is JavaScript's string form of null, a colon and the port. */
  lemma PortWithoutHostname(url: string, port: string)
    requires url != [] && url[0] != '#' && ' ' !in url && ' ' !in port
    ensures LineEntry(url + " port:" + port)
         == Some((url, INITIAL.(port := Some(port), host := Some("null:" + port))))
  {
    var token := "port" + ":" + port;
    SplitTwo(url, token);
    assert url + " port:" + port == url + " " + token;
    assert Split(url + " port:" + port, ' ')[1..] == [token];
    AnnotationRoundTrip("port", port);
    assert ApplyAll(INITIAL, [token]) == ApplyAnnotation(ApplyAll(INITIAL, []), token);
    assert JsText(None) + ":" + port == "null:" + port;
  }
}
