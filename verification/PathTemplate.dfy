/**
 HTTP path templates: what the two implementations accept, and that both read the same
 thing out of a path.
 */
module PathTemplate {
  import opened Options
  import opened Text

  // ----- templates and how they are written -----

  datatype Segment = Literal(text: string) | Variable(name: string)

  datatype Template = Template(segments: seq<Segment>, customVerb: string)

  predicate GoodSegment(g: Segment) {
    match g
    case Literal(text) => text != "" && NoneOf(text, "/{}:")
    case Variable(name) => name != "" && NoneOf(name, "=/*{}")
  }

  predicate GoodVerb(verb: string) {
    verb != "" && NoneOf(verb, "/{}: \t\r\n")
  }

  function PrintSegment(g: Segment): string {
    match g
    case Literal(text) => text
    case Variable(name) => "{" + name + "}"
  }

  function Printed(segments: seq<Segment>): (parts: seq<string>)
    ensures |parts| == |segments| && forall i | 0 <= i < |parts| :: parts[i] == PrintSegment(segments[i])
  {
    seq(|segments|, i requires 0 <= i < |segments| => PrintSegment(segments[i]))
  }

  function PrintVerb(verb: string): string {
    if verb == "" then "" else ":" + verb
  }

  function Print(t: Template): string {
    "/" + Join('/', Printed(t.segments)) + PrintVerb(t.customVerb)
  }

  /** Made of good parts. */
  ghost predicate Built(t: Template) {
    && (forall g | g in t.segments :: GoodSegment(g))
    && (t.customVerb == "" || (GoodVerb(t.customVerb) && t.segments != []))
  }

  /** The templates of the language: a path must not end in blanks either. */
  ghost predicate Wellformed(t: Template) {
    Built(t) && Trimmed(Print(t))
  }

  function Variables(segments: seq<Segment>): seq<string> {
    if segments == [] then []
    else (if segments[0].Variable? then [segments[0].name] else []) + Variables(segments[1..])
  }

  // ----- the scan for a custom verb -----

  /**
   Where a scan that starts inside (`open`) or outside braces is after `s`; absent when it
   met nested or unmatched braces, or a colon outside braces.
   */
  function After(s: string, open: bool): Option<bool> {
    if s == "" then Some(open)
    else if s[0] == '{' then (if open then None else After(s[1..], true))
    else if s[0] == '}' then (if open then After(s[1..], false) else None)
    else if s[0] == ':' && !open then None
    else After(s[1..], open)
  }

  /** Braces match and every colon is inside of them. */
  predicate Clean(s: string) {
    After(s, false) == Some(false)
  }

  lemma {:induction false} AfterJoined(a: string, b: string, open: bool)
    ensures After(a + b, open) == if After(a, open).None? then None else After(b, After(a, open).value)
  {
    if a == "" {
      assert a + b == b;
    } else {
      assert (a + b)[0] == a[0] && (a + b)[1..] == a[1..] + b;
      AfterJoined(a[1..], b, if a[0] == '{' then true else if a[0] == '}' then false else open);
    }
  }

  lemma {:induction false} AfterPlain(s: string, open: bool)
    requires NoneOf(s, "{}") && (open || NoneOf(s, ":"))
    ensures After(s, open) == Some(open)
  {
    if s != "" {
      assert s[0] !in "{}" && (open || s[0] !in ":");
      assert forall i | 0 <= i < |s[1..]| :: s[1..][i] == s[i + 1];
      AfterPlain(s[1..], open);
    }
  }

  /** `raw` is a clean base, followed by a verb if there is one. */
  ghost predicate Splits(raw: string, base: string, verb: string) {
    raw == base + PrintVerb(verb) && Clean(base) && (verb == "" || GoodVerb(verb))
  }

  lemma AfterOne(raw: string, i: nat)
    requires i < |raw|
    ensures After(raw[..i + 1], false) ==
            if After(raw[..i], false).None? then None
            else
              var open := After(raw[..i], false).value;
              if raw[i] == '{' then (if open then None else Some(true))
              else if raw[i] == '}' then (if open then Some(false) else None)
              else if raw[i] == ':' && !open then None
              else Some(open)
  {
    assert raw[..i + 1] == raw[..i] + [raw[i]];
    AfterJoined(raw[..i], [raw[i]], false);
  }

  /** The scan survives exactly the prefixes of the base. */
  lemma ScanOfSplit(raw: string, base: string, verb: string, i: nat)
    requires Splits(raw, base, verb) && i <= |raw|
    ensures After(raw[..i], false).Some? <==> i <= |base|
  {
    if i <= |base| {
      assert base == raw[..i] + base[i..];
      AfterJoined(raw[..i], base[i..], false);
    } else {
      assert raw[..i] == base + PrintVerb(verb)[..i - |base|];
      AfterJoined(base, PrintVerb(verb)[..i - |base|], false);
    }
  }

  /** So where the scan first fails is the colon before the verb. */
  lemma SplitWhereScanFails(raw: string, i: nat)
    requires i < |raw| && After(raw[..i], false).Some? && After(raw[..i + 1], false).None?
    ensures forall base, verb | Splits(raw, base, verb) :: base == raw[..i] && verb == raw[i + 1..] && raw[i] == ':'
  {
    forall base, verb | Splits(raw, base, verb)
      ensures base == raw[..i] && verb == raw[i + 1..] && raw[i] == ':'
    {
      ScanOfSplit(raw, base, verb, i);
      ScanOfSplit(raw, base, verb, i + 1);
    }
  }

  lemma ScanFailure(raw: string, i: nat)
    requires i < |raw|
    ensures After(raw[..i], false).Some? && After(raw[..i + 1], false).None? ==>
              forall base, verb | Splits(raw, base, verb) :: base == raw[..i] && verb == raw[i + 1..] && raw[i] == ':'
  {
    if After(raw[..i], false).Some? && After(raw[..i + 1], false).None? {
      SplitWhereScanFails(raw, i);
    }
  }

  lemma SplitWhereScanSurvives(raw: string)
    ensures After(raw, false).Some? ==> forall base, verb | Splits(raw, base, verb) :: base == raw && verb == ""
  {
    forall base, verb | After(raw, false).Some? && Splits(raw, base, verb) ensures base == raw && verb == "" {
      assert raw[..|raw|] == raw;
      ScanOfSplit(raw, base, verb, |raw|);
    }
  }

  lemma NotInVerb(raw: string, verbIndex: int, index: int)
    ensures 0 <= verbIndex < index < |raw| && raw[index] in "{}:" ==> !GoodVerb(raw[verbIndex + 1..])
  {
    if 0 <= verbIndex < index < |raw| && raw[index] in "{}:" {
      assert raw[verbIndex + 1..][index - verbIndex - 1] == raw[index];
    }
  }

  lemma SplitParts(raw: string, base: string, verb: string)
    requires Splits(raw, base, verb)
    ensures |base| <= |raw| && base == raw[..|base|]
    ensures verb == if |base| == |raw| then "" else raw[|base| + 1..]
  {
  }

  lemma SplitsUnique(raw: string, b: string, v: string, c: string, w: string)
    requires Splits(raw, b, v) && Splits(raw, c, w)
    ensures b == c && v == w
  {
    SplitParts(raw, b, v);
    SplitParts(raw, c, w);
    ScanOfSplit(raw, b, v, |c|);
    ScanOfSplit(raw, c, w, |b|);
    ScanOfSplit(raw, b, v, |b|);
    ScanOfSplit(raw, c, w, |c|);
  }

  datatype Cut = SplitOk(base: string, verb: string) | SplitError

  /** Finds the one way to cut a custom verb off, or that there is none. */
  method SplitCustomVerb(raw: string) returns (r: Cut)
    ensures r.SplitOk? ==> Splits(raw, r.base, r.verb)
    ensures r.SplitError? ==> forall base, verb :: !Splits(raw, base, verb)
  {
    var depth := 0;
    var verbIndex := -1;
    var index := 0;
    while index < |raw|
      invariant 0 <= index <= |raw| && 0 <= depth <= 1
      invariant verbIndex < 0 ==> verbIndex == -1 && After(raw[..index], false) == Some(depth == 1)
      invariant verbIndex >= 0 ==> verbIndex < index && raw[verbIndex] == ':' && Clean(raw[..verbIndex])
      invariant verbIndex >= 0 ==> forall base, verb | Splits(raw, base, verb) :: base == raw[..verbIndex] && verb == raw[verbIndex + 1..]
      invariant verbIndex >= 0 && depth != 0 ==> !GoodVerb(raw[verbIndex + 1..])
    {
      AfterOne(raw, index);
      ScanFailure(raw, index);
      NotInVerb(raw, verbIndex, index);
      match raw[index] {
        case '{' =>
          depth := depth + 1;
          if depth > 1 {
            return SplitError;
          }
        case '}' =>
          depth := depth - 1;
          if depth < 0 {
            return SplitError;
          }
        case ':' =>
          if depth == 0 {
            if verbIndex >= 0 {
              return SplitError;
            }
            verbIndex := index;
          }
        case _ =>
      }
      index := index + 1;
    }
    assert raw[..|raw|] == raw;
    if depth != 0 {
      SplitWhereScanSurvives(raw);
      return SplitError;
    }
    if verbIndex < 0 {
      return SplitOk(raw, "");
    }
    var verb := raw[verbIndex + 1..];
    if !NoneOf(verb, "/") {
      return SplitError;
    }
    if verb == "" || !NoneOf(verb, "{}: \t\r\n") {
      return SplitError;
    }
    assert raw == raw[..verbIndex] + PrintVerb(verb);
    r := SplitOk(raw[..verbIndex], verb);
  }

  // ----- segments -----

  predicate Braced(s: string) {
    s != "" && s[0] == '{' && s[|s| - 1] == '}' && Count(s, '{') == 1 && Count(s, '}') == 1
  }

  predicate GoodName(name: string) {
    name != "" && NoneOf(name, "=/*{}")
  }

  /** How the gateway reads a segment. */
  function ParseSegment(s: string): Option<Segment> {
    if s == "" then None
    else if s[0] == '{' || s[|s| - 1] == '}' || !NoneOf(s, "{}") then
      if !Braced(s) then None
      else if GoodName(s[1..|s| - 1]) then Some(Variable(s[1..|s| - 1]))
      else None
    else Some(Literal(s))
  }

  /** How the contract compiler checks one. */
  predicate AcceptsSegment(s: string) {
    && s != ""
    && (NoneOf(s, "{}") || (Braced(s) && GoodName(s[1..|s| - 1])))
  }

  lemma SegmentParity(s: string)
    ensures AcceptsSegment(s) <==> ParseSegment(s).Some?
  {
    if s != "" {
      assert NoneOf(s, "{}") ==> s[0] !in "{}" && s[|s| - 1] !in "{}";
    }
  }

  lemma VariableBraced(name: string)
    requires GoodName(name)
    ensures Braced("{" + name + "}") && ParseSegment("{" + name + "}") == Some(Variable(name))
    ensures NoneOf("{" + name + "}", "/")
  {
    var s := "{" + name + "}";
    assert forall i | 0 <= i < |name| :: name[i] !in "=/*{}";
    CountNone(name, '{');
    CountNone(name, '}');
    assert s[1..] == name + "}";
    CountLast(name, '}', '{');
    CountLast(name, '}', '}');
    assert s[1..|s| - 1] == name;
  }

  /** Reading a printed segment gives it back. */
  lemma SegmentRoundTrip(g: Segment)
    requires GoodSegment(g)
    ensures ParseSegment(PrintSegment(g)) == Some(g) && NoneOf(PrintSegment(g), "/") && PrintSegment(g) != ""
    ensures Clean(PrintSegment(g))
  {
    match g {
      case Literal(text) =>
        assert forall i | 0 <= i < |text| :: text[i] !in "/{}:";
        AfterPlain(text, false);
      case Variable(name) =>
        VariableBraced(name);
        CleanVariable(name);
    }
  }

  lemma CleanVariable(name: string)
    requires GoodName(name)
    ensures Clean("{" + name + "}")
  {
    assert forall i | 0 <= i < |name| :: name[i] !in "=/*{}";
    AfterPlain(name, true);
    AfterJoined(name, "}", true);
    assert ("{" + name + "}")[1..] == name + "}";
    assert After("}", true) == After("}"[1..], false) == Some(false);
  }

  /** A segment that was read prints as it was, and is good unless it hides a colon. */
  lemma SegmentRead(s: string)
    requires ParseSegment(s).Some? && NoneOf(s, "/")
    ensures PrintSegment(ParseSegment(s).value) == s
    ensures After(s, false).Some? ==> GoodSegment(ParseSegment(s).value) && Clean(s)
  {
    var g := ParseSegment(s).value;
    if g.Variable? {
      assert s == "{" + g.name + "}";
      CleanVariable(g.name);
    } else {
      LiteralClean(s);
    }
  }

  lemma {:induction false} LiteralClean(s: string)
    requires NoneOf(s, "{}")
    ensures After(s, false) == if NoneOf(s, ":") then Some(false) else None
  {
    if NoneOf(s, ":") {
      AfterPlain(s, false);
    } else {
      assert s[0] !in "{}";
      assert forall i | 0 <= i < |s[1..]| :: s[1..][i] == s[i + 1];
      if s[0] != ':' {
        LiteralClean(s[1..]);
        assert NoneOf(s[1..], ":") ==> NoneOf(s, ":");
      }
    }
  }

  // ----- whole paths -----

  lemma AfterSlash(first: string, rest: string)
    ensures After(first + "/" + rest, false) ==
            if After(first, false).None? then None
            else After(rest, After(first, false).value)
  {
    AfterJoined(first, "/" + rest, false);
    assert ("/" + rest)[1..] == rest && first + "/" + rest == first + ("/" + rest);
  }

  lemma {:induction false} CleanParts(parts: seq<string>)
    requires After(Join('/', parts), false).Some?
    requires forall p | p in parts :: ParseSegment(p).Some? && NoneOf(p, "/")
    ensures forall p | p in parts :: Clean(p)
  {
    if parts != [] {
      SegmentRead(parts[0]);
      if |parts| > 1 {
        AfterSlash(parts[0], Join('/', parts[1..]));
        CleanParts(parts[1..]);
        assert parts == [parts[0]] + parts[1..];
      }
    }
  }

  lemma {:induction false} CleanJoin(parts: seq<string>)
    requires forall p | p in parts :: Clean(p)
    ensures Clean(Join('/', parts))
  {
    assert parts != [] ==> parts[0] in parts;
    if |parts| > 1 {
      AfterSlash(parts[0], Join('/', parts[1..]));
      CleanJoin(parts[1..]);
    }
  }

  /** What the language accepts: the paths that some template prints as. */
  ghost predicate Grammatical(raw: string) {
    exists t :: Wellformed(t) && Print(t) == raw
  }

  /** Reading starts from a trimmed path with a leading slash. */
  predicate Rooted(raw: string) {
    Trimmed(raw) && raw != "" && raw[0] == '/'
  }

  /** The parts between the slashes of a base. */
  function Parts(base: string): seq<string>
    requires base != ""
  {
    if base == "/" then [] else Split('/', base[1..])
  }

  predicate Readable(parts: seq<string>) {
    forall i | 0 <= i < |parts| :: ParseSegment(parts[i]).Some?
  }

  /** A printed template splits where it was joined, and each part reads as its segment. */
  lemma ReadBack(t: Template)
    requires Built(t)
    ensures Wellformed(t) ==> Rooted(Print(t))
    ensures
      var base := "/" + Join('/', Printed(t.segments));
      && Splits(Print(t), base, t.customVerb) && Parts(base) == Printed(t.segments)
    ensures forall i | 0 <= i < |t.segments| :: ParseSegment(Printed(t.segments)[i]) == Some(t.segments[i])
    ensures t.segments == [] ==> t.customVerb == ""
  {
    var parts := Printed(t.segments);
    var joined := Join('/', parts);
    forall i | 0 <= i < |parts|
      ensures ParseSegment(parts[i]) == Some(t.segments[i]) && NoneOf(parts[i], "/") && Clean(parts[i])
    {
      assert t.segments[i] in t.segments;
      SegmentRoundTrip(t.segments[i]);
    }
    CleanJoin(parts);
    assert ("/" + joined)[1..] == joined;
    if parts != [] {
      SplitOfJoin('/', parts);
      assert parts[0] != "" by {
        assert ParseSegment(parts[0]).Some?;
      }
      assert joined != "";
    }
  }

  /** The templates that the parts of a path read as. */
  function Segments(parts: seq<string>): (r: seq<Segment>)
    requires Readable(parts)
    ensures |r| == |parts| && forall i | 0 <= i < |r| :: Some(r[i]) == ParseSegment(parts[i])
  {
    seq(|parts|, i requires 0 <= i < |parts| => ParseSegment(parts[i]).value)
  }

  lemma ReadTemplate(raw: string, base: string, verb: string)
    requires Rooted(raw) && Splits(raw, base, verb) && base != ""
    requires Readable(Parts(base)) && (base == "/" ==> verb == "")
    ensures
      var t := Template(Segments(Parts(base)), verb);
      Wellformed(t) && Print(t) == raw
  {
    var parts := Parts(base);
    var t := Template(Segments(parts), verb);
    var joined := base[1..];
    assert base == "/" + joined by {
      assert raw[0] == base[0];
    }
    assert After(base, false) == After(joined, false);
    if base != "/" {
      JoinOfSplit('/', joined);
      CleanParts(parts);
    }
    forall g | g in t.segments ensures GoodSegment(g) {
      var i :| 0 <= i < |parts| && t.segments[i] == g;
      assert parts[i] in parts;
      SegmentRead(parts[i]);
    }
    forall i | 0 <= i < |parts| ensures PrintSegment(t.segments[i]) == parts[i] {
      assert parts[i] in parts;
      SegmentRead(parts[i]);
    }
    assert Printed(t.segments) == parts;
  }

  /** When a path is grammatical, in terms of how both implementations cut it. */
  lemma Grammar(raw: string, base: string, verb: string)
    requires Splits(raw, base, verb) && Rooted(raw) && base != ""
    ensures Grammatical(raw) <==> Readable(Parts(base)) && (base == "/" ==> verb == "")
  {
    if Readable(Parts(base)) && (base == "/" ==> verb == "") {
      ReadTemplate(raw, base, verb);
    }
    forall t | Wellformed(t) && Print(t) == raw ensures Readable(Parts(base)) && (base == "/" ==> verb == "") {
      ReadBack(t);
      SplitsUnique(raw, base, verb, "/" + Join('/', Printed(t.segments)), t.customVerb);
    }
  }

  lemma Ungrammatical(raw: string)
    requires !Rooted(raw) || forall base, verb :: !Splits(raw, base, verb)
    ensures !Grammatical(raw)
  {
    forall t | Wellformed(t) ensures Rooted(Print(t)) && exists base, verb :: Splits(Print(t), base, verb) {
      ReadBack(t);
    }
  }

  /** A path is printed by one template at most. */
  lemma PrintInjective(t: Template, u: Template)
    requires Built(t) && Built(u) && Print(t) == Print(u)
    ensures t == u
  {
    ReadBack(t);
    ReadBack(u);
    SplitsUnique(Print(t), "/" + Join('/', Printed(t.segments)), t.customVerb,
                 "/" + Join('/', Printed(u.segments)), u.customVerb);
    assert |t.segments| == |u.segments|;
    forall i | 0 <= i < |t.segments| ensures t.segments[i] == u.segments[i] {
      assert Some(t.segments[i]) == ParseSegment(Printed(t.segments)[i]) == Some(u.segments[i]);
    }
  }

  lemma BaseRooted(raw: string, base: string, verb: string)
    requires Splits(raw, base, verb) && Rooted(raw)
    ensures base != "" && base[0] == '/'
  {
    assert base == "" ==> raw == PrintVerb(verb);
  }

  // ----- the two implementations -----

  /** The gateway's reading: parsing undoes printing, and accepts nothing else. */
  method ParseTemplate(raw: string) returns (r: Option<Template>)
    ensures r.Some? ==> Wellformed(r.value) && Print(r.value) == raw
    ensures r.None? ==> !Grammatical(raw)
  {
    if !Rooted(raw) {
      Ungrammatical(raw);
      return None;
    }
    var split := SplitCustomVerb(raw);
    if split.SplitError? {
      Ungrammatical(raw);
      return None;
    }
    var base, verb := split.base, split.verb;
    BaseRooted(raw, base, verb);
    Grammar(raw, base, verb);
    if base == "/" {
      if verb != "" {
        return None;
      }
      ReadTemplate(raw, base, verb);
      return Some(Template([], ""));
    }
    var rawSegments := Split('/', base[1..]);
    var segments: seq<Segment> := [];
    for i := 0 to |rawSegments|
      invariant |segments| == i && Readable(rawSegments[..i])
      invariant forall j | 0 <= j < i :: Some(segments[j]) == ParseSegment(rawSegments[j])
    {
      var g := ParseSegment(rawSegments[i]);
      if g.None? {
        return None;
      }
      segments := segments + [g.value];
    }
    ReadTemplate(raw, base, verb);
    assert segments == Segments(rawSegments);
    r := Some(Template(segments, verb));
  }

  /** Fields found so far, before those found in the rest. */
  function Prepend(fields: seq<string>, rest: Option<seq<string>>): Option<seq<string>> {
    if rest.None? then None else Some(fields + rest.value)
  }

  /** The first braced name of a path, with what follows it. */
  datatype Step = NoField | BadField | Field(name: string, rest: string)

  /** What is read behind an opening brace. */
  function FieldIn(tail: string): (r: Step)
    ensures r.Field? ==> |r.rest| < |tail|
  {
    var end := IndexOf(tail, '}');
    if end == |tail| then BadField
    else
      var name := tail[..end];
      if name == "" || !NoneOf(name, "=/*") then BadField else Field(name, tail[end + 1..])
  }

  function NextField(path: string): (r: Step)
    ensures r.Field? ==> |r.rest| < |path|
  {
    var start := IndexOf(path, '{');
    if start == |path| then NoField else FieldIn(path[start + 1..])
  }

  /** The fields the code generator takes from a path, left to right. */
  function Fields(path: string): Option<seq<string>>
    decreases |path|
  {
    match NextField(path)
    case NoField => Some([])
    case BadField => None
    case Field(name, rest) => Prepend([name], Fields(rest))
  }

  lemma PrependTwice(fields: seq<string>, name: string, rest: Option<seq<string>>)
    ensures Prepend(fields, Prepend([name], rest)) == Prepend(fields + [name], rest)
  {
    if rest.Some? {
      assert fields + ([name] + rest.value) == fields + [name] + rest.value;
    }
  }

  method SimplePathFields(path: string) returns (r: Option<seq<string>>)
    ensures r == Fields(path)
  {
    var fields: seq<string> := [];
    var rest := path;
    assert Fields(path).Some? ==> [] + Fields(path).value == Fields(path).value;
    while true
      invariant Fields(path) == Prepend(fields, Fields(rest))
      decreases |rest|
    {
      var step := NextField(rest);
      match step {
        case NoField =>
          assert fields + [] == fields;
          return Some(fields);
        case BadField => return None;
        case Field(name, more) =>
          PrependTwice(fields, name, Fields(more));
          fields := fields + [name];
          rest := more;
      }
    }
  }

  lemma {:induction false} SkipPlain(a: string, b: string)
    requires NoneOf(a, "{")
    ensures IndexOf(a + b, '{') == |a| + IndexOf(b, '{')
  {
    if a == "" {
      assert a + b == b;
    } else {
      assert a[0] !in "{" && (a + b)[0] == a[0] && (a + b)[1..] == a[1..] + b;
      assert forall i | 0 <= i < |a[1..]| :: a[1..][i] == a[i + 1];
      SkipPlain(a[1..], b);
    }
  }

  lemma DropInto(a: string, b: string, k: nat)
    requires k <= |b|
    ensures (a + b)[|a| + k..] == b[k..]
  {
  }

  lemma NextSkips(a: string, b: string)
    requires NoneOf(a, "{")
    ensures NextField(a + b) == NextField(b)
  {
    SkipPlain(a, b);
    var start := IndexOf(b, '{');
    if start < |b| {
      DropInto(a, b, start + 1);
    }
  }

  /** Text without an opening brace holds no field. */
  lemma FieldsSkip(a: string, b: string)
    requires NoneOf(a, "{")
    ensures Fields(a + b) == Fields(b)
  {
    NextSkips(a, b);
  }

  lemma NoFields(s: string)
    requires NoneOf(s, "{")
    ensures Fields(s) == Some([])
  {
    assert forall i | 0 <= i < |s| :: s[i] !in "{";
  }

  lemma {:induction false} IndexAfter(name: string, rest: string)
    requires NoneOf(name, "}")
    ensures IndexOf(name + "}" + rest, '}') == |name|
  {
    var s := name + "}" + rest;
    assert forall j | 0 <= j < |name| :: s[j] == name[j] && name[j] !in "}";
    assert s[|name|] == '}';
  }

  lemma FieldFirst(name: string, rest: string)
    requires GoodName(name)
    ensures Fields("{" + name + "}" + rest) == Prepend([name], Fields(rest))
  {
    var s := "{" + name + "}" + rest;
    assert forall j | 0 <= j < |name| :: name[j] !in "=/*{}";
    IndexAfter(name, rest);
    assert s[1..] == name + "}" + rest;
    assert s[1..][..|name|] == name && s[1..][|name| + 1..] == rest;
    assert IndexOf(s, '{') == 0 && NextField(s) == Field(name, rest);
  }

  lemma FieldsOfSegment(g: Segment, rest: string)
    requires GoodSegment(g)
    ensures Fields(PrintSegment(g) + rest) == if g.Variable? then Prepend([g.name], Fields(rest)) else Fields(rest)
  {
    match g {
      case Literal(text) =>
        assert forall j | 0 <= j < |text| :: text[j] !in "/{}:";
        FieldsSkip(text, rest);
      case Variable(name) => FieldFirst(name, rest);
    }
  }

  /** In the text of a template the generator finds the template's variables, in order. */
  lemma {:induction false} FieldsOfSegments(segments: seq<Segment>, tail: string)
    requires forall g | g in segments :: GoodSegment(g)
    requires NoneOf(tail, "{")
    ensures Fields(Join('/', Printed(segments)) + tail) == Some(Variables(segments))
  {
    var text := Join('/', Printed(segments));
    if segments == [] {
      NoFields(tail);
      assert text + tail == tail;
    } else {
      var g, others := segments[0], segments[1..];
      assert Printed(segments)[1..] == Printed(others);
      var rest := Join('/', Printed(others)) + tail;
      FieldsOfSegments(others, tail);
      assert g.Variable? ==> Variables(segments) == [g.name] + Variables(others);
      assert g.Literal? ==> Variables(segments) == Variables(others);
      if others == [] {
        assert rest == tail;
        FieldsOfSegment(g, tail);
      } else {
        assert text + tail == PrintSegment(g) + ("/" + rest);
        FieldsOfSegment(g, "/" + rest);
        FieldsSkip("/", rest);
      }
    }
  }

  lemma VerbPlain(verb: string)
    requires verb == "" || GoodVerb(verb)
    ensures NoneOf(PrintVerb(verb), "{")
  {
    assert forall i | 0 <= i < |verb| :: verb[i] !in "/{}: \t\r\n";
  }

  lemma FieldsAreVariables(t: Template)
    requires Wellformed(t)
    ensures Fields(Print(t)) == Some(Variables(t.segments))
  {
    var body, tail := Join('/', Printed(t.segments)), PrintVerb(t.customVerb);
    VerbPlain(t.customVerb);
    FieldsOfSegments(t.segments, tail);
    AfterLeadingSlash(body, tail);
  }

  lemma AfterLeadingSlash(body: string, tail: string)
    ensures Fields("/" + body + tail) == Fields(body + tail)
  {
    assert NoneOf("/", "{");
    FieldsSkip("/", body + tail);
    Associates("/", body, tail);
  }

  lemma Associates(a: string, b: string, c: string)
    ensures a + (b + c) == a + b + c
  {
  }

  lemma GrammaticalHasFields(path: string)
    ensures Grammatical(path) ==> Fields(path).Some?
  {
    if Grammatical(path) {
      var t :| Wellformed(t) && Print(t) == path;
      FieldsAreVariables(t);
    }
  }

  /** The contract compiler's check: it accepts exactly what the gateway can read. */
  method ValidateBindingPath(path: string) returns (ok: bool)
    ensures ok <==> Grammatical(path)
  {
    if !Rooted(path) {
      Ungrammatical(path);
      return false;
    }
    GrammaticalHasFields(path);
    var fields := SimplePathFields(path);
    if fields.None? {
      return false;
    }
    var split := SplitCustomVerb(path);
    if split.SplitError? {
      Ungrammatical(path);
      return false;
    }
    var base, verb := split.base, split.verb;
    BaseRooted(path, base, verb);
    Grammar(path, base, verb);
    if base == "/" {
      return verb == "";
    }
    var segments := Split('/', base[1..]);
    for i := 0 to |segments|
      invariant forall j | 0 <= j < i :: ParseSegment(segments[j]).Some?
    {
      SegmentParity(segments[i]);
      if !AcceptsSegment(segments[i]) {
        return false;
      }
    }
    ok := true;
  }

  /** Both implementations on one path: same verdict, and the fields are the template's variables. */
  method BothAgree(path: string) returns (template: Option<Template>, accepted: bool, fields: Option<seq<string>>)
    ensures accepted <==> template.Some?
    ensures template.Some? ==> Print(template.value) == path && fields == Some(Variables(template.value.segments))
    ensures forall t | Wellformed(t) && Print(t) == path :: template == Some(t)
  {
    template := ParseTemplate(path);
    accepted := ValidateBindingPath(path);
    fields := SimplePathFields(path);
    if template.Some? {
      FieldsAreVariables(template.value);
      forall t | Wellformed(t) && Print(t) == path ensures template == Some(t) {
        PrintInjective(t, template.value);
      }
    }
  }
}
