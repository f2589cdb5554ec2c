/**
 * Entries: a name plus an ordered list of location templates.
 *
 * A template is a list of path segments; segments may hold placeholders such
 * as "{HOME}" that are filled in from the environment when the locations are
 * resolved. The stored form (dictionary and JSON text) keeps the templates
 * unresolved.
 */
module Entries {
  import opened Wrappers
  import opened Json

  /** One location, as path segments still holding their placeholders. */
  type Template = seq<string>

  /** Equality is structural: same name and same stored templates. */
  datatype Entry = Entry(name: string, templates: seq<Template>)

  // ---------------------------------------------------------------------
  // A sequence of fallible steps; the first failure wins.
  // ---------------------------------------------------------------------

  function Traverse<A, B, E>(xs: seq<A>, f: A -> Result<B, E>): (r: Result<seq<B>, E>)
    ensures r.Success? ==> |r.value| == |xs|
    decreases |xs|
  {
    if |xs| == 0 then Success([])
    else
      match f(xs[0])
      case Failure(e) => Failure(e)
      case Success(y) =>
        match Traverse(xs[1..], f)
        case Failure(e) => Failure(e)
        case Success(ys) => Success([y] + ys)
  }

  /** Traverse succeeds exactly when every step does, keeping the results in order. */
  lemma {:induction false} TraverseSuccess<A, B, E>(xs: seq<A>, f: A -> Result<B, E>)
    ensures Traverse(xs, f).Success? <==> forall i :: 0 <= i < |xs| ==> f(xs[i]).Success?
    ensures Traverse(xs, f).Success? ==>
              forall i :: 0 <= i < |xs| ==> Traverse(xs, f).value[i] == f(xs[i]).value
    decreases |xs|
  {
    if |xs| > 0 {
      TraverseSuccess(xs[1..], f);
      if f(xs[0]).Success? && Traverse(xs[1..], f).Success? {
        var ys := Traverse(xs[1..], f).value;
        forall i | 1 <= i < |xs|
          ensures Traverse(xs, f).value[i] == f(xs[i]).value
        {
          assert xs[1..][i - 1] == xs[i];
        }
      } else if f(xs[0]).Success? {
        var j :| 0 <= j < |xs[1..]| && f(xs[1..][j]).Failure?;
        assert f(xs[j + 1]).Failure?;
      }
    }
  }

  /** A failing traversal reports the error of its first failing step. */
  lemma {:induction false} TraverseFailure<A, B, E>(xs: seq<A>, f: A -> Result<B, E>)
    requires Traverse(xs, f).Failure?
    ensures exists i :: 0 <= i < |xs| && f(xs[i]) == Failure(Traverse(xs, f).error) &&
                        forall j :: 0 <= j < i ==> f(xs[j]).Success?
    decreases |xs|
  {
    if f(xs[0]).Success? {
      TraverseFailure(xs[1..], f);
      var i :| 0 <= i < |xs[1..]| && f(xs[1..][i]) == Failure(Traverse(xs[1..], f).error) &&
               forall j :: 0 <= j < i ==> f(xs[1..][j]).Success?;
      assert xs[1..][i] == xs[i + 1];
      forall j | 0 <= j < i + 1
        ensures f(xs[j]).Success?
      {
        if j > 0 {
          assert xs[1..][j - 1] == xs[j];
        }
      }
    } else {
      assert f(xs[0]) == Failure(Traverse(xs, f).error);
    }
  }

  // ---------------------------------------------------------------------
  // Placeholder substitution, as str.format_map does it for plain field
  // names: "{{" and "}}" stand for single braces, "{KEY}" for vars[KEY].
  // ---------------------------------------------------------------------

  /** Why a segment could not be formatted: a key the environment lacks, or bad braces. */
  datatype FormatMapError = UnknownKey(key: string) | Malformed

  predicate BraceFree(s: string) {
    forall i :: 0 <= i < |s| ==> s[i] != '{' && s[i] != '}'
  }

  /** The placeholders an environment knows: the home directory. */
  function Placeholders(home: string): (vars: map<string, string>)
    ensures "HOME" in vars && vars["HOME"] == home
  {
    map["HOME" := home]
  }

  /** A field name of decimal digits only, which str.format_map reads as a positional index. */
  predicate Positional(k: string) {
    |k| > 0 && forall i :: 0 <= i < |k| ==> '0' <= k[i] <= '9'
  }

  /** Reads a field name up to its closing brace, returning it and the text after the brace. */
  function FieldName(s: string): (r: Option<(string, string)>)
    ensures r.Some? ==> |r.value.1| < |s| && BraceFree(r.value.0)
    decreases |s|
  {
    if |s| == 0 || s[0] == '{' then None
    else if s[0] == '}' then Some(("", s[1..]))
    else
      match FieldName(s[1..])
      case None => None
      case Some((k, rest)) => Some(([s[0]] + k, rest))
  }

  function Prepend(p: string, r: Result<string, FormatMapError>): (q: Result<string, FormatMapError>)
    ensures q.Success? <==> r.Success?
    ensures r.Failure? ==> q == r
  {
    match r
    case Success(t) => Success(p + t)
    case Failure(e) => Failure(e)
  }

  /** One segment with its placeholders substituted; errors are reported left to right. */
  function Format(s: string, vars: map<string, string>): (r: Result<string, FormatMapError>)
    decreases |s|
  {
    if |s| == 0 then Success("")
    else if s[0] == '{' then
      if |s| > 1 && s[1] == '{' then Prepend("{", Format(s[2..], vars))
      else
        match FieldName(s[1..])
        case None => Failure(Malformed)
        case Some((k, rest)) =>
          if k == "" || Positional(k) then Failure(Malformed)
          else if k !in vars then Failure(UnknownKey(k))
          else Prepend(vars[k], Format(rest, vars))
    else if s[0] == '}' then
      if |s| > 1 && s[1] == '}' then Prepend("}", Format(s[2..], vars))
      else Failure(Malformed)
    else Prepend([s[0]], Format(s[1..], vars))
  }

  /** A segment without braces is left as it is. */
  lemma {:induction false} FormatPlain(s: string, vars: map<string, string>)
    requires BraceFree(s)
    ensures Format(s, vars) == Success(s)
    decreases |s|
  {
    if |s| > 0 {
      assert BraceFree(s[1..]) by {
        forall i | 0 <= i < |s[1..]| ensures s[1..][i] != '{' && s[1..][i] != '}' {
          assert s[1..][i] == s[i + 1];
        }
      }
      FormatPlain(s[1..], vars);
      assert [s[0]] + s[1..] == s;
    }
  }

  /** A brace-free field name followed by its closing brace reads back as that name. */
  lemma {:induction false} FieldNameRoundTrip(k: string, rest: string)
    requires BraceFree(k)
    ensures FieldName(k + "}" + rest) == Some((k, rest))
    decreases |k|
  {
    var s := k + "}" + rest;
    if |k| == 0 {
      assert s[1..] == rest;
    } else {
      assert s[1..] == k[1..] + "}" + rest;
      assert BraceFree(k[1..]) by {
        forall i | 0 <= i < |k[1..]| ensures k[1..][i] != '{' && k[1..][i] != '}' {
          assert k[1..][i] == k[i + 1];
        }
      }
      FieldNameRoundTrip(k[1..], rest);
      assert [k[0]] + k[1..] == k;
    }
  }

  /**
   * "{KEY}" is replaced by the environment's value for KEY, or fails naming KEY;
   * a numeric field such as "{0}" asks for a positional argument, which
   * format_map does not have.
   */
  lemma FormatField(k: string, rest: string, vars: map<string, string>)
    requires k != "" && BraceFree(k)
    ensures Format("{" + k + "}" + rest, vars) ==
            if Positional(k) then Failure(Malformed)
            else if k in vars then Prepend(vars[k], Format(rest, vars))
            else Failure(UnknownKey(k))
  {
    var s := "{" + k + "}" + rest;
    assert s[1..] == k + "}" + rest;
    assert s[1] == k[0];
    FieldNameRoundTrip(k, rest);
  }

  /** A numeric field is never looked up as a key, even when the environment has that key. */
  lemma PositionalFieldFails(home: string)
    ensures Format("{0}", map["0" := home]) == Failure(Malformed)
  {
    FormatField("0", "", map["0" := home]);
    assert "{" + "0" + "}" + "" == "{0}";
  }

  /** The text that formats to s: every brace doubled. */
  function EscapeBraces(s: string): (r: string)
    ensures |r| >= |s|
  {
    if |s| == 0 then ""
    else if s[0] == '{' || s[0] == '}' then [s[0], s[0]] + EscapeBraces(s[1..])
    else [s[0]] + EscapeBraces(s[1..])
  }

  /** Formatting undoes brace doubling, whatever the environment. */
  lemma {:induction false} FormatEscapeBraces(s: string, vars: map<string, string>)
    ensures Format(EscapeBraces(s), vars) == Success(s)
    decreases |s|
  {
    if |s| > 0 {
      var e := EscapeBraces(s);
      FormatEscapeBraces(s[1..], vars);
      if s[0] == '{' || s[0] == '}' {
        assert e[2..] == EscapeBraces(s[1..]);
      } else {
        assert e[1..] == EscapeBraces(s[1..]);
      }
      assert [s[0]] + s[1..] == s;
    }
  }

  // ---------------------------------------------------------------------
  // Joining segments the way os.path.join does on POSIX.
  // ---------------------------------------------------------------------

  predicate Absolute(p: string) {
    |p| > 0 && p[0] == '/'
  }

  /** A segment with no separator in it. */
  predicate Component(p: string) {
    |p| > 0 && forall i :: 0 <= i < |p| ==> p[i] != '/'
  }

  /** Appends one part: an absolute part replaces the path, others are added after a '/'. */
  function JoinStep(path: string, b: string): (r: string)
    ensures |r| >= |b|
    ensures Absolute(path) ==> Absolute(r)
  {
    if Absolute(b) then b
    else if |path| == 0 || path[|path| - 1] == '/' then path + b
    else path + "/" + b
  }

  function Join(a: string, parts: seq<string>): (r: string)
    decreases |parts|
  {
    if |parts| == 0 then a else Join(JoinStep(a, parts[0]), parts[1..])
  }

  /** Parts written with a separator in front of each. */
  function Slashed(parts: seq<string>): (r: string)
    decreases |parts|
  {
    if |parts| == 0 then "" else "/" + parts[0] + Slashed(parts[1..])
  }

  /** Joining onto an absolute path gives an absolute path. */
  lemma {:induction false} JoinKeepsAbsolute(a: string, parts: seq<string>)
    requires Absolute(a)
    ensures Absolute(Join(a, parts))
    decreases |parts|
  {
    if |parts| > 0 {
      JoinKeepsAbsolute(JoinStep(a, parts[0]), parts[1..]);
    }
  }

  /** An absolute part discards everything joined before it. */
  lemma {:induction false} JoinAbsoluteResets(a: string, parts: seq<string>, i: nat)
    requires i < |parts| && Absolute(parts[i])
    ensures Join(a, parts) == Join(parts[i], parts[i + 1..])
    decreases i
  {
    if i > 0 {
      assert parts[1..][i - 1] == parts[i];
      assert parts[1..][i..] == parts[i + 1..];
      JoinAbsoluteResets(JoinStep(a, parts[0]), parts[1..], i - 1);
    }
  }

  /** Plain components are appended one separator apart. */
  lemma {:induction false} JoinComponents(a: string, parts: seq<string>)
    requires |a| > 0 && a[|a| - 1] != '/'
    requires forall i :: 0 <= i < |parts| ==> Component(parts[i])
    ensures Join(a, parts) == a + Slashed(parts)
    decreases |parts|
  {
    if |parts| > 0 {
      var p := parts[0];
      assert Component(p);
      var b := a + "/" + p;
      assert JoinStep(a, p) == b;
      assert b[|b| - 1] == p[|p| - 1];
      forall i | 0 <= i < |parts[1..]| ensures Component(parts[1..][i]) {
        assert parts[1..][i] == parts[i + 1];
      }
      JoinComponents(b, parts[1..]);
      var rest := Slashed(parts[1..]);
      assert Slashed(parts) == "/" + p + rest;
      Assoc(a, "/", p);
      Assoc(a, "/" + p, rest);
    }
  }

  /** Components joined under the root: "/" followed by the components one separator apart. */
  lemma JoinUnderRoot(parts: seq<string>)
    requires |parts| > 0
    requires forall i :: 0 <= i < |parts| ==> Component(parts[i])
    ensures Join("/", parts) == Slashed(parts)
  {
    var p := parts[0];
    assert Component(p);
    assert JoinStep("/", p) == "/" + p;
    assert ("/" + p)[|p|] == p[|p| - 1];
    JoinComponents("/" + p, parts[1..]);
  }

  // ---------------------------------------------------------------------
  // Resolution and the existence probe.
  // ---------------------------------------------------------------------

  /** Format with a fixed environment, as one step of a traversal. */
  function Formatter(vars: map<string, string>): (f: string -> Result<string, FormatMapError>)
    ensures forall s :: f(s) == Format(s, vars)
  {
    s => Format(s, vars)
  }

  /** A template made into a path: each segment formatted, all joined under the root. */
  function Resolve(t: Template, vars: map<string, string>): (r: Result<string, FormatMapError>)
    ensures r.Success? ==> Absolute(r.value)
  {
    match Traverse(t, Formatter(vars))
    case Failure(e) => Failure(e)
    case Success(segs) => JoinKeepsAbsolute("/", segs); Success(Join("/", segs))
  }

  /** Every template of the entry resolved, in order; the first formatting error wins. */
  function Locations(e: Entry, vars: map<string, string>): (r: Result<seq<string>, FormatMapError>)
  {
    Traverse(e.templates, Resolver(vars))
  }

  /** Resolve with a fixed environment, as one step of a traversal. */
  function Resolver(vars: map<string, string>): (f: Template -> Result<string, FormatMapError>)
    ensures forall t :: f(t) == Resolve(t, vars)
  {
    t => Resolve(t, vars)
  }

  /** Locations succeed iff every template resolves, and then hold those paths in template order. */
  lemma LocationsInOrder(e: Entry, vars: map<string, string>)
    ensures Locations(e, vars).Success? <==>
              forall i :: 0 <= i < |e.templates| ==> Resolve(e.templates[i], vars).Success?
    ensures Locations(e, vars).Success? ==>
              |Locations(e, vars).value| == |e.templates| &&
              forall i :: 0 <= i < |e.templates| ==>
                Locations(e, vars).value[i] == Resolve(e.templates[i], vars).value &&
                Absolute(Locations(e, vars).value[i])
    ensures Locations(e, vars).Failure? ==>
              exists i :: 0 <= i < |e.templates| &&
                Resolve(e.templates[i], vars) == Failure(Locations(e, vars).error)
  {
    TraverseSuccess(e.templates, Resolver(vars));
    if Locations(e, vars).Failure? {
      TraverseFailure(e.templates, Resolver(vars));
    }
  }

  /** Each resolved location mapped to whether it exists in the file system fs. */
  function LocationsExists(e: Entry, vars: map<string, string>, fs: set<string>)
    : (r: Result<map<string, bool>, FormatMapError>)
    ensures r.Success? <==> Locations(e, vars).Success?
    ensures r.Success? ==>
              (forall l :: l in r.value <==> l in Locations(e, vars).value) &&
              (forall l :: l in r.value ==> (r.value[l] <==> l in fs))
  {
    match Locations(e, vars)
    case Failure(err) => Failure(err)
    case Success(ls) => Success(map l | l in ls :: l in fs)
  }

  /** Creating the file at a resolved location turns its probe from false to true. */
  lemma ProbeFollowsFileSystem(e: Entry, vars: map<string, string>, fs: set<string>, l: string)
    requires Locations(e, vars).Success? && l in Locations(e, vars).value && l !in fs
    ensures !LocationsExists(e, vars, fs).value[l]
    ensures LocationsExists(e, vars, fs + {l}).value[l]
  {
  }

  // ---------------------------------------------------------------------
  // Stored form: a dictionary {name, locations} and its JSON text.
  // ---------------------------------------------------------------------

  function StrValues(ss: seq<string>): (r: seq<Value>)
    ensures |r| == |ss|
    decreases |ss|
  {
    if |ss| == 0 then [] else [Str(ss[0])] + StrValues(ss[1..])
  }

  function TemplateValues(ts: seq<Template>): (r: seq<Value>)
    ensures |r| == |ts|
    decreases |ts|
  {
    if |ts| == 0 then [] else [Arr(StrValues(ts[0]))] + TemplateValues(ts[1..])
  }

  /** The dictionary form: the name, then the templates exactly as stored. */
  function ToDict(e: Entry): (v: Value)
    ensures v.Obj? && |v.members| == 2
    ensures v.members[0] == Member("name", Str(e.name))
    ensures v.members[1].key == "locations" && v.members[1].value.Arr?
    ensures |v.members[1].value.items| == |e.templates|
  {
    Obj([Member("name", Str(e.name)), Member("locations", Arr(TemplateValues(e.templates)))])
  }

  function StringsOf(vs: seq<Value>): (r: Option<seq<string>>)
    decreases |vs|
  {
    if |vs| == 0 then Some([])
    else if !vs[0].Str? then None
    else
      match StringsOf(vs[1..])
      case None => None
      case Some(ss) => Some([vs[0].s] + ss)
  }

  function TemplatesOf(vs: seq<Value>): (r: Option<seq<Template>>)
    decreases |vs|
  {
    if |vs| == 0 then Some([])
    else if !vs[0].Arr? then None
    else
      match StringsOf(vs[0].items)
      case None => None
      case Some(t) =>
        match TemplatesOf(vs[1..])
        case None => None
        case Some(ts) => Some([t] + ts)
  }

  /** Reads an entry back from its dictionary form; anything else has no entry. */
  function FromDict(v: Value): (r: Option<Entry>)
  {
    if v.Obj? && |v.members| == 2
       && v.members[0].key == "name" && v.members[0].value.Str?
       && v.members[1].key == "locations" && v.members[1].value.Arr?
    then
      match TemplatesOf(v.members[1].value.items)
      case None => None
      case Some(ts) => Some(Entry(v.members[0].value.s, ts))
    else None
  }

  lemma {:induction false} StringsRoundTrip(ss: seq<string>)
    ensures StringsOf(StrValues(ss)) == Some(ss)
    decreases |ss|
  {
    if |ss| > 0 {
      StringsRoundTrip(ss[1..]);
      assert StrValues(ss)[1..] == StrValues(ss[1..]);
      assert [ss[0]] + ss[1..] == ss;
    }
  }

  lemma {:induction false} TemplatesRoundTrip(ts: seq<Template>)
    ensures TemplatesOf(TemplateValues(ts)) == Some(ts)
    decreases |ts|
  {
    if |ts| > 0 {
      StringsRoundTrip(ts[0]);
      TemplatesRoundTrip(ts[1..]);
      assert TemplateValues(ts)[1..] == TemplateValues(ts[1..]);
      assert [ts[0]] + ts[1..] == ts;
    }
  }

  /** The dictionary form loses nothing. */
  lemma DictRoundTrip(e: Entry)
    ensures FromDict(ToDict(e)) == Some(e)
  {
    TemplatesRoundTrip(e.templates);
  }

  /** The JSON text of an entry: its dictionary form serialised. */
  function ToJson(e: Entry): (r: string)
    ensures |r| >= 2 && r[0] == '{'
  {
    Serialize(ToDict(e))
  }

  function FromJson(s: string): (r: Option<Entry>)
  {
    match Parse(s)
    case None => None
    case Some(v) => FromDict(v)
  }

  /** Reading the JSON text back gives the same entry. */
  lemma JsonRoundTrip(e: Entry)
    ensures FromJson(ToJson(e)) == Some(e)
  {
    ParseSerialize(ToDict(e));
    DictRoundTrip(e);
  }

  /** Two entries are equal exactly when their JSON texts are. */
  lemma EqualIffSameJson(e: Entry, f: Entry)
    ensures e == f <==> ToJson(e) == ToJson(f)
  {
    JsonRoundTrip(e);
    JsonRoundTrip(f);
  }

  // ---------------------------------------------------------------------
  // The entry used throughout the test suite.
  // ---------------------------------------------------------------------

  const SampleEntry := Entry("Test", [["{HOME}", "johndoe"], ["etc"]])

  lemma FormatHome(home: string)
    ensures Format("{HOME}", Placeholders(home)) == Success(home)
  {
    FormatField("HOME", "", Placeholders(home));
    assert "{" + "HOME" + "}" + "" == "{HOME}";
    assert Format("", Placeholders(home)) == Success("");
    assert home + "" == home;
  }

  lemma TraverseOne<A, B, E>(x: A, f: A -> Result<B, E>)
    requires f(x).Success?
    ensures Traverse([x], f) == Success([f(x).value])
  {
    assert [x][1..] == [];
    assert Traverse([x][1..], f) == Success([]);
    assert [f(x).value] + [] == [f(x).value];
  }

  lemma TraversePair<A, B, E>(x: A, y: A, f: A -> Result<B, E>)
    requires f(x).Success? && f(y).Success?
    ensures Traverse([x, y], f) == Success([f(x).value, f(y).value])
  {
    assert [x, y][1..] == [y];
    TraverseOne(y, f);
    assert [f(x).value] + [f(y).value] == [f(x).value, f(y).value];
  }

  lemma JoinPair(a: string, b: string)
    requires Absolute(a) && a[|a| - 1] != '/' && |b| > 0 && b[0] != '/'
    ensures Join("/", [a, b]) == a + "/" + b
  {
    assert [a, b][1..] == [b];
    assert [b][1..] == [];
    assert JoinStep("/", a) == a;
    assert JoinStep(a, b) == a + "/" + b;
    assert Join("/", [a, b]) == Join(a, [b]);
    assert Join(a, [b]) == Join(a + "/" + b, []);
  }

  /** A template whose segments format one by one resolves to their join. */
  lemma ResolveFormatted(t: Template, vars: map<string, string>, segs: seq<string>)
    requires Traverse(t, Formatter(vars)) == Success(segs)
    ensures Resolve(t, vars) == Success(Join("/", segs))
  {
  }

  /** A two-segment template whose segments format to a and b resolves to a + "/" + b. */
  lemma ResolvePair(t: Template, vars: map<string, string>, a: string, b: string)
    requires |t| == 2 && Format(t[0], vars) == Success(a) && Format(t[1], vars) == Success(b)
    requires Absolute(a) && a[|a| - 1] != '/' && |b| > 0 && b[0] != '/'
    ensures Resolve(t, vars) == Success(a + "/" + b)
  {
    var f := Formatter(vars);
    assert t == [t[0], t[1]];
    TraversePair(t[0], t[1], f);
    ResolveFormatted(t, vars, [a, b]);
    JoinPair(a, b);
  }

  lemma JohndoeBraceFree()
    ensures BraceFree("johndoe")
  {
  }

  lemma JohndoeText(home: string)
    ensures home + "/" + "johndoe" == home + "/johndoe"
  {
    assert "/" + "johndoe" == "/johndoe";
    Assoc(home, "/", "johndoe");
  }

  lemma SampleHomeTemplate(home: string)
    requires Absolute(home) && home[|home| - 1] != '/'
    ensures Resolve(["{HOME}", "johndoe"], Placeholders(home)) == Success(home + "/johndoe")
    ensures Join("/", [home, "johndoe"]) == home + "/johndoe"
  {
    FormatHome(home);
    JohndoeBraceFree();
    FormatPlain("johndoe", Placeholders(home));
    ResolvePair(["{HOME}", "johndoe"], Placeholders(home), home, "johndoe");
    JoinPair(home, "johndoe");
    JohndoeText(home);
  }

  lemma SampleEtcTemplate(home: string)
    ensures Resolve(["etc"], Placeholders(home)) == Success("/etc")
    ensures Join("/", ["etc"]) == "/etc"
  {
    var vars := Placeholders(home);
    FormatPlain("etc", vars);
    TraverseOne("etc", Formatter(vars));
    ResolveFormatted(["etc"], vars, ["etc"]);
    assert JoinStep("/", "etc") == "/etc";
  }

  /**
   * The sample entry's locations are the home directory's "johndoe" and
   * "/etc", both joined under the root as os.path.join does.
   */
  lemma SampleLocations(home: string)
    requires Absolute(home) && home[|home| - 1] != '/'
    ensures Locations(SampleEntry, Placeholders(home)) == Success([Join("/", [home, "johndoe"]), Join("/", ["etc"])])
    ensures Join("/", [home, "johndoe"]) == home + "/johndoe" && Join("/", ["etc"]) == "/etc"
  {
    var vars := Placeholders(home);
    SampleHomeTemplate(home);
    SampleEtcTemplate(home);
    TraversePair(["{HOME}", "johndoe"], ["etc"], Resolver(vars));
  }

  /** The dictionary form of an entry shaped like the sample: two templates. */
  lemma DictOfTwoTemplates(n: string, x: string, y: string, z: string)
    ensures ToDict(Entry(n, [[x, y], [z]])) ==
            Obj([Member("name", Str(n)), Member("locations", Arr([Arr([Str(x), Str(y)]), Arr([Str(z)])]))])
  {
    var ts: seq<Template> := [[x, y], [z]];
    assert ts[1..] == [[z]];
    assert [x, y][1..] == [y];
    assert StrValues([y]) == [Str(y)];
    assert StrValues([x, y]) == [Str(x)] + StrValues([y]);
    assert StrValues([z]) == [Str(z)];
    assert TemplateValues([[z]]) == [Arr([Str(z)])];
    assert TemplateValues(ts) == [Arr(StrValues([x, y]))] + TemplateValues([[z]]);
    assert [Str(x)] + [Str(y)] == [Str(x), Str(y)];
    assert [Arr([Str(x), Str(y)])] + [Arr([Str(z)])] == [Arr([Str(x), Str(y)]), Arr([Str(z)])];
  }

  predicate PlainText(s: string) {
    forall i :: 0 <= i < |s| ==> Plain(s[i])
  }

  /** A string literal whose characters need no escape. */
  function Lit(s: string): (r: string)
  {
    "\"" + s + "\""
  }

  /** The JSON text of an entry shaped like the sample, for plain-character strings. */
  lemma JsonOfTwoTemplates(n: string, x: string, y: string, z: string)
    requires PlainText(n) && PlainText(x) && PlainText(y) && PlainText(z)
    ensures ToJson(Entry(n, [[x, y], [z]])) ==
            "{" + (Lit("name") + ": " + Lit(n)) + ", "
            + (Lit("locations") + ": " + ("[" + ("[" + Lit(x) + ", " + Lit(y) + "]") + ", " + ("[" + Lit(z) + "]") + "]"))
            + "}"
  {
    DictOfTwoTemplates(n, x, y, z);
    var inner := Arr([Arr([Str(x), Str(y)]), Arr([Str(z)])]);
    QuotePlain(x);
    QuotePlain(y);
    QuotePlain(z);
    QuotePlain(n);
    QuotePlain("name");
    QuotePlain("locations");
    ArrayOfTwo(Str(x), Str(y));
    ArrayOfOne(Str(z));
    ArrayOfTwo(Arr([Str(x), Str(y)]), Arr([Str(z)]));
    ObjectOfTwo(Member("name", Str(n)), Member("locations", inner));
  }

  // The sample's JSON text, assembled from its pieces one small step at a time.
  // The expected text is written as three literals joined together, which is
  // the same string as the single literal it spells.

  lemma RegroupObjectText(nm: string, lk: string, l: string)
    ensures "{" + nm + ", " + (lk + l) + "}" == ("{" + nm + ", ") + lk + (l + "}")
  {
  }

  lemma SampleNameText()
    ensures Lit("name") + ": " + Lit("Test") == "\"name\": \"Test\""
    ensures "{" + "\"name\": \"Test\"" + ", " == "{\"name\": \"Test\", "
  {
  }

  lemma SampleKeyText()
    ensures Lit("locations") + ": " == "\"locations\": "
  {
  }

  lemma SampleHomeText()
    ensures "[" + Lit("{HOME}") + ", " == "[\"{HOME}\", "
  {
  }

  lemma SampleTemplatesText()
    ensures "[" + Lit("{HOME}") + ", " + Lit("johndoe") + "]" == "[\"{HOME}\", \"johndoe\"]"
    ensures "[" + Lit("etc") + "]" == "[\"etc\"]"
  {
    SampleHomeText();
    assert "[\"{HOME}\", " + Lit("johndoe") + "]" == "[\"{HOME}\", \"johndoe\"]";
  }

  lemma SampleListHead()
    ensures "[" + "[\"{HOME}\", \"johndoe\"]" + ", " == "[[\"{HOME}\", \"johndoe\"], "
  {
  }

  lemma SampleListTail()
    ensures "[[\"{HOME}\", \"johndoe\"], " + "[\"etc\"]" + "]" == "[[\"{HOME}\", \"johndoe\"], [\"etc\"]]"
  {
  }

  lemma SampleListText()
    ensures "[" + "[\"{HOME}\", \"johndoe\"]" + ", " + "[\"etc\"]" + "]" == "[[\"{HOME}\", \"johndoe\"], [\"etc\"]]"
  {
    SampleListHead();
    SampleListTail();
  }

  lemma SampleClosedText()
    ensures "[[\"{HOME}\", \"johndoe\"], [\"etc\"]]" + "}" == "[[\"{HOME}\", \"johndoe\"], [\"etc\"]]}"
  {
  }

  lemma SampleText()
    ensures "{" + (Lit("name") + ": " + Lit("Test")) + ", "
            + (Lit("locations") + ": " + ("[" + ("[" + Lit("{HOME}") + ", " + Lit("johndoe") + "]") + ", " + ("[" + Lit("etc") + "]") + "]"))
            + "}"
            == "{\"name\": \"Test\", " + "\"locations\": " + "[[\"{HOME}\", \"johndoe\"], [\"etc\"]]}"
  {
    SampleNameText();
    SampleKeyText();
    SampleTemplatesText();
    SampleListText();
    SampleClosedText();
    RegroupObjectText(Lit("name") + ": " + Lit("Test"), Lit("locations") + ": ",
                      "[" + ("[" + Lit("{HOME}") + ", " + Lit("johndoe") + "]") + ", " + ("[" + Lit("etc") + "]") + "]");
  }

  /** The sample's dictionary form keeps its templates unresolved, name first. */
  lemma SampleDict()
    ensures ToDict(SampleEntry) ==
            Obj([Member("name", Str("Test")),
                 Member("locations", Arr([Arr([Str("{HOME}"), Str("johndoe")]), Arr([Str("etc")])]))])
  {
    DictOfTwoTemplates("Test", "{HOME}", "johndoe", "etc");
  }

  /** The sample's JSON text, character for character. */
  lemma SampleJson()
    ensures ToJson(SampleEntry) == "{\"name\": \"Test\", " + "\"locations\": " + "[[\"{HOME}\", \"johndoe\"], [\"etc\"]]}"
  {
    assert PlainText("Test") && PlainText("{HOME}") && PlainText("johndoe") && PlainText("etc");
    JsonOfTwoTemplates("Test", "{HOME}", "johndoe", "etc");
    SampleText();
  }

  /** Entries with the same name and templates are equal; another name makes them differ. */
  lemma SampleEquality()
    ensures SampleEntry == Entry("Test", [["{HOME}", "johndoe"], ["etc"]])
    ensures SampleEntry != Entry("NotEqual", [["etc", "lib"]])
    ensures ToJson(SampleEntry) != ToJson(Entry("NotEqual", [["etc", "lib"]]))
  {
    EqualIffSameJson(SampleEntry, Entry("NotEqual", [["etc", "lib"]]));
  }
}
