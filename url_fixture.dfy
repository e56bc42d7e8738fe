/** The reader of the URL conformance fixture (test/simple/test-url-w3c.js). Each line of the
    fixture text is a URL under test followed by space-separated `key:value` annotations; the
    reader turns every accepted line into a pair of the URL and the record that `url.parse`
    is expected to produce for it.

    The specification functions (`ParseAnnotation`, `ApplyAnnotation`, `ApplyAll`,
    `FinishHost`, `LineEntry`, `Entries`) say what a line and a file yield; the methods
    `ParseLine` and `ParseFixture` are the source's loops, proved equal to them. */
module UrlFixture {
  import opened Wrappers
  import opened JsStrings

  /** The expected record. Every field but `slashes` is a string or `null` (`None`);
      `fragment` is not among the initial keys, so `None` there means the key is absent. */
  datatype Expected = Expected(
    protocol: Option<string>,
    slashes: bool,
    auth: Option<string>,
    host: Option<string>,
    port: Option<string>,
    hostname: Option<string>,
    hash: Option<string>,
    search: Option<string>,
    query: Option<string>,
    pathname: Option<string>,
    path: Option<string>,
    href: Option<string>,
    fragment: Option<string>)

  /** One fixture entry: the URL under test and the record expected for it. */
  type Entry = (string, Expected)

  /** The record every line starts from: all fields null except `slashes`, which is true. */
  const INITIAL: Expected :=
    Expected(None, true, None, None, None, None, None, None, None, None, None, None, None)

  /** The cases of the reader's `switch` on an annotation's key; `Unknown` is its
      `default`, which ignores the annotation. */
  datatype Key = Scheme | User | Password | Hostname | Port | Pathname | Query | Fragment | Unknown

  /** The case a key name selects. */
  function KeyOf(name: string): Key {
    if name == "s" then Scheme
    else if name == "u" then User
    else if name == "pass" then Password
    else if name == "h" then Hostname
    else if name == "port" then Port
    else if name == "p" then Pathname
    else if name == "q" then Query
    else if name == "f" then Fragment
    else Unknown
  }

  /** The case label of a key; `KeyOf` reads it back (see `KeyNames`). */
  function Name(k: Key): string
    requires k != Unknown
  {
    match k
    case Scheme => "s"
    case User => "u"
    case Password => "pass"
    case Hostname => "h"
    case Port => "port"
    case Pathname => "p"
    case Query => "q"
    case Fragment => "f"
  }

  /** Every case label selects its own case, and every name that selects a case is that
      case's label, so the eight labels are exactly the names understood. */
  lemma KeyNames(k: Key, name: string)
    ensures k != Unknown ==> KeyOf(Name(k)) == k
    ensures KeyOf(name) != Unknown ==> Name(KeyOf(name)) == name
  {
  }

  /** The fields no annotation writes (host is only derived once all annotations are read). */
  predicate SameFixedFields(a: Expected, b: Expected) {
    && a.slashes == b.slashes
    && a.host == b.host
    && a.hash == b.hash
    && a.search == b.search
    && a.path == b.path
    && a.href == b.href
  }

  /** The fields that keep their initial value in every entry. */
  predicate Pristine(e: Expected) {
    e.slashes && e.hash.None? && e.search.None? && e.path.None? && e.href.None?
  }

  /** JavaScript's string conversion of a string-or-null, as `+` applies it. */
  function JsText(s: Option<string>): string {
    match s
    case Some(t) => t
    case None => "null"
  }

  /** `host` is the hostname, followed by `:` and the port when a port is present
      (with JavaScript's "null" when the hostname is absent). */
  predicate HostConsistent(e: Expected) {
    e.host == if e.port.None? then e.hostname else Some(JsText(e.hostname) + ":" + e.port.value)
  }

  /** Splits an annotation at its first colon into key and value: the key is non-empty and
      free of colons, and key, colon and value make up the segment. `None` when the segment
      is no annotation (see `ParseAnnotationSpec`). */
  function ParseAnnotation(segment: string): (r: Option<(string, string)>)
    ensures r.Some? ==> r.value.0 != [] && ':' !in r.value.0 && r.value.0 + ":" + r.value.1 == segment
  {
    if segment == [] || segment[0] == '#' then None
    else
      var colon := IndexOf(segment, ':');
      if colon <= 0 then None
      else
        IndexOfFirst(segment, ':');
        assert segment == segment[..colon] + ":" + segment[colon + 1..];
        Some((segment[..colon], segment[colon + 1..]))
  }

  /** An empty segment, one starting with `#`, one without a colon and one whose first
      colon is its first character are no annotation; any other is its key, a colon and
      its value, where the key is non-empty and free of colons (the value may hold more). */
  lemma ParseAnnotationSpec(segment: string)
    ensures ParseAnnotation(segment).None?
        <==> (segment == [] || segment[0] == '#' || segment[0] == ':' || ':' !in segment)
    ensures ParseAnnotation(segment).Some? ==>
              var (key, value) := ParseAnnotation(segment).value;
              key != [] && ':' !in key && key + ":" + value == segment
  {
    IndexOfFirst(segment, ':');
    if ParseAnnotation(segment).Some? {
      var colon := IndexOf(segment, ':');
      assert segment == segment[..colon] + ":" + segment[colon + 1..];
    }
  }

  /** The effect of one `switch` case on the record: `u` prepends the user to `auth`,
      `pass` appends `:` and the password, the others overwrite their field (`s` with a `:`
      appended, `f` writing `fragment`), and the default changes nothing. */
  function Write(e: Expected, key: Key, value: string): (r: Expected)
    ensures SameFixedFields(e, r)
    ensures key == User || key == Password ==> r.auth.Some?
    ensures key != User && key != Password ==> r.auth == e.auth
    ensures key == Unknown ==> r == e
  {
    match key
    case Scheme => e.(protocol := Some(value + ":"))
    case User => e.(auth := Some(value + e.auth.GetOr("")))
    case Password => e.(auth := Some(e.auth.GetOr("") + ":" + value))
    case Hostname => e.(hostname := Some(value))
    case Port => e.(port := Some(value))
    case Pathname => e.(pathname := Some(value))
    case Query => e.(query := Some(value))
    case Fragment => e.(fragment := Some(value))
    case Unknown => e
  }

  /** Applies one segment to the record under construction. Only the seven annotated
      fields can change, and a segment that is no annotation or has an unknown key changes
      nothing. */
  function ApplyAnnotation(e: Expected, segment: string): (r: Expected)
    ensures SameFixedFields(e, r)
    ensures ParseAnnotation(segment).None? || KeyOf(ParseAnnotation(segment).value.0) == Unknown ==> r == e
  {
    match ParseAnnotation(segment)
    case None => e
    case Some((key, value)) => Write(e, KeyOf(key), value)
  }

  /** Applies the annotations of a line in order. */
  function ApplyAll(e: Expected, segments: seq<string>): (r: Expected)
    ensures SameFixedFields(e, r)
    decreases |segments|
  {
    if segments == [] then e
    else ApplyAnnotation(ApplyAll(e, segments[..|segments| - 1]), segments[|segments| - 1])
  }

  /** Derives `host` from `hostname` and `port` once all annotations are read; no other
      field changes. */
  function FinishHost(e: Expected): (r: Expected)
    ensures r == e.(host := r.host)
    ensures HostConsistent(r)
  {
    var withHost := e.(host := e.hostname);
    if withHost.port.None? then withHost
    else withHost.(host := Some(JsText(withHost.host) + ":" + withHost.port.value))
  }

  /** What one fixture line yields: nothing for an empty line, a line starting with `#` and
      a line without a space (one with fewer than two space-separated tokens); otherwise the
      first token, unchanged, and the record built from the remaining tokens. */
  function LineEntry(line: string): (r: Option<Entry>)
    ensures r.None? <==> (line == [] || line[0] == '#' || ' ' !in line)
    ensures r.Some? ==> ' ' !in r.value.0 && r.value.0 + " " <= line
    ensures r.Some? ==> Pristine(r.value.1) && HostConsistent(r.value.1)
  {
    if line == [] || line[0] == '#' then None
    else
      var tokens := Split(line, ' ');
      SplitWhole(line, ' ');
      if |tokens| < 2 then None
      else
        SplitHead(line, ' ');
        assert line[..|tokens[0]| + 1] == tokens[0] + " ";
        Some((tokens[0], FinishHost(ApplyAll(INITIAL, tokens[1..]))))
  }

  /** The entries of a fixture given as its lines: one per accepted line, in line order. */
  function Entries(lines: seq<string>): (r: seq<Entry>)
    ensures |r| <= |lines|
    ensures forall k :: 0 <= k < |r| ==> Pristine(r[k].1) && HostConsistent(r[k].1)
    decreases |lines|
  {
    if lines == [] then []
    else
      var previous := Entries(lines[..|lines| - 1]);
      match LineEntry(lines[|lines| - 1])
      case None => previous
      case Some(entry) => previous + [entry]
  }

  /** The reader's callback for one line: skip checks, split on spaces, take the first token
      as the URL, fold the annotations into a fresh record, derive `host`. */
  method ParseLine(testData: string) returns (entry: Option<Entry>)
    ensures entry == LineEntry(testData)
  {
    if testData == [] || testData[0] == '#' {
      return None;
    }
    var splitData := Split(testData, ' ');
    if |splitData| < 2 {
      return None;
    }
    var test := splitData[0];
    splitData := splitData[1..];

    var expected := INITIAL;
    var i := 0;
    while i < |splitData|
      invariant 0 <= i <= |splitData|
      invariant expected == ApplyAll(INITIAL, splitData[..i])
    {
      var segment := splitData[i];
      assert splitData[..i + 1][..i] == splitData[..i];
      i := i + 1;
      if segment == [] || segment[0] == '#' {
        continue;
      }
      var colon := IndexOf(segment, ':');
      if colon <= 0 {
        continue;
      }
      var key := segment[..colon];
      var value := segment[colon + 1..];
      if key == "s" {
        expected := expected.(protocol := Some(value + ":"));
      } else if key == "u" {
        expected := expected.(auth := Some(value + expected.auth.GetOr("")));
      } else if key == "pass" {
        expected := expected.(auth := Some(expected.auth.GetOr("") + ":" + value));
      } else if key == "h" {
        expected := expected.(hostname := Some(value));
      } else if key == "port" {
        expected := expected.(port := Some(value));
      } else if key == "p" {
        expected := expected.(pathname := Some(value));
      } else if key == "q" {
        expected := expected.(query := Some(value));
      } else if key == "f" {
        expected := expected.(fragment := Some(value));
      }
    }
    assert splitData[..i] == splitData;
    expected := expected.(host := expected.hostname);
    if expected.port.Some? {
      expected := expected.(host := Some(JsText(expected.host) + ":" + expected.port.value));
    }
    entry := Some((test, expected));
  }

  /** The reader: split the fixture text on newlines and push the entry of every accepted
      line onto the result. */
  method ParseFixture(rawTestData: string) returns (parsedData: seq<Entry>)
    ensures parsedData == Entries(Split(rawTestData, '\n'))
  {
    var lines := Split(rawTestData, '\n');
    parsedData := [];
    for k := 0 to |lines|
      invariant parsedData == Entries(lines[..k])
    {
      assert lines[..k + 1][..k] == lines[..k];
      var entry := ParseLine(lines[k]);
      if entry.Some? {
        parsedData := parsedData + [entry.value];
      }
    }
    assert lines[..|lines|] == lines;
  }

  /** How many entries the comparison accepts. */
  function PassCount(entries: seq<Entry>, matches: Entry -> bool): (r: nat)
    ensures r <= |entries|
    decreases |entries|
  {
    if entries == [] then 0
    else PassCount(entries[..|entries| - 1], matches) + (if matches(entries[|entries| - 1]) then 1 else 0)
  }

  /** The pass/fail loop. `matches` stands for parsing the URL with `url.parse`, clearing
      `href` and comparing with the expected record, none of which is part of this model. */
  method Tally(parsedData: seq<Entry>, matches: Entry -> bool) returns (passes: nat, failures: nat)
    ensures passes == PassCount(parsedData, matches)
    ensures passes + failures == |parsedData|
  {
    passes, failures := 0, 0;
    for i := 0 to |parsedData|
      invariant passes == PassCount(parsedData[..i], matches)
      invariant passes + failures == i
    {
      assert parsedData[..i + 1][..i] == parsedData[..i];
      if matches(parsedData[i]) {
        passes := passes + 1;
      } else {
        failures := failures + 1;
      }
    }
    assert parsedData[..|parsedData|] == parsedData;
  }
}
