/** The brace scanner that finds a decision object in a model's answer (src/runner.rs). */
module Scanner {
  import opened Text

  // ---- The scan ----

  /** What the loop carries from one character to the next. */
  datatype State = State(depth: int, inString: bool, escape: bool)

  predicate Closes(st: State, ch: char) {
    !st.escape && !st.inString && ch == '}' && st.depth == 1
  }

  function Step(st: State, ch: char): State {
    if st.escape then st.(escape := false)
    else if ch == '\\' && st.inString then st.(escape := true)
    else if ch == '\"' then st.(inString := !st.inString)
    else if st.inString then st
    else if ch == '{' then st.(depth := st.depth + 1)
    else if ch == '}' then st.(depth := st.depth - 1)
    else st
  }

  const OUTSIDE := State(0, false, false)

  function Shifted(n: nat, r: Option<nat>): Option<nat> {
    if r.Some? then Some(n + r.value) else None
  }

  /** How much of the text is read when the depth first returns to zero. */
  function StopAt(s: string, st: State): Option<nat> {
    if s == "" then None
    else if Closes(st, s[0]) then Some(1)
    else Shifted(1, StopAt(s[1..], Step(st, s[0])))
  }

  /** The state after a text that does not end the scan. */
  function After(s: string, st: State): Option<State> {
    if s == "" then Some(st)
    else if Closes(st, s[0]) then None
    else After(s[1..], Step(st, s[0]))
  }

  lemma {:induction false} AfterConcat(a: string, b: string, st: State)
    ensures After(a, st).Some? ==> After(a + b, st) == After(b, After(a, st).value)
    ensures After(a, st).Some? ==> StopAt(a + b, st) == Shifted(|a|, StopAt(b, After(a, st).value))
  {
    if a == "" {
      assert a + b == b;
    } else {
      assert (a + b)[1..] == a[1..] + b;
      if !Closes(st, a[0]) { AfterConcat(a[1..], b, Step(st, a[0])); }
    }
  }

  /** The loop of the scan, started at an opening brace. */
  method ScanObject(text: string) returns (end: Option<nat>)
    ensures end == StopAt(text, OUTSIDE)
    ensures end.Some? ==> 0 < end.value <= |text|
  {
    var depth, inString, escape := 0, false, false;
    end := None;
    var i := 0;
    while i < |text|
      invariant 0 <= i <= |text|
      invariant end == None
      invariant StopAt(text, OUTSIDE) == Shifted(i, StopAt(text[i..], State(depth, inString, escape)))
    {
      var ch := text[i];
      assert text[i..][1..] == text[i + 1..];
      if escape {
        escape := false;
      } else if ch == '\\' && inString {
        escape := true;
      } else if ch == '\"' {
        inString := !inString;
      } else if !inString {
        if ch == '{' {
          depth := depth + 1;
        } else if ch == '}' {
          depth := depth - 1;
          if depth == 0 {
            end := Some(i + 1);
            return;
          }
        }
      }
      i := i + 1;
    }
  }

  // ---- JSON texts, sections 2 to 7 of RFC 8259 ----

  /** A string's characters; `\uXXXX` is an escaped `u` and four plain digits. */
  datatype Piece = Unescaped(c: char) | Escaped(c: char)

  datatype Json =
    | Literal(text: string)
    | Str(pieces: seq<Piece>)
    | Array(blank: string, elems: Elems)
    | Object(blank: string, members: Members)

  datatype Elems = NoElems | Elem(before: string, value: Json, behind: string, rest: Elems)

  datatype Members =
    | NoMembers
    | Member(before: string, name: seq<Piece>, colon: string, value: Json, behind: string, rest: Members)

  function PieceText(p: Piece): string {
    match p case Unescaped(c) => [c] case Escaped(c) => ['\\', c]
  }

  function PiecesText(ps: seq<Piece>): string {
    if ps == [] then "" else PieceText(ps[0]) + PiecesText(ps[1..])
  }

  function StringText(ps: seq<Piece>): string { "\"" + (PiecesText(ps) + "\"") }

  function JsonText(v: Json): string {
    match v
    case Literal(text) => text
    case Str(pieces) => StringText(pieces)
    case Array(blank, elems) => "[" + (blank + (ElemsText(elems) + "]"))
    case Object(blank, members) => "{" + (blank + (MembersText(members) + "}"))
  }

  function ElemsText(es: Elems): string {
    match es
    case NoElems => ""
    case Elem(before, value, behind, rest) =>
      before + (JsonText(value) + (behind + ((if rest.NoElems? then "" else ",") + ElemsText(rest))))
  }

  function MembersText(ms: Members): string {
    match ms
    case NoMembers => ""
    case Member(before, name, colon, value, behind, rest) =>
      before
      + (StringText(name)
         + (colon + (JsonText(value) + (behind + ((if rest.NoMembers? then "" else ",") + MembersText(rest))))))
  }

  /** No quote and no brace: true of white space, numbers, the three names, commas and a colon with
      white space around it. */
  predicate Inert(s: string) {
    forall k | 0 <= k < |s| :: s[k] != '\"' && s[k] != '{' && s[k] != '}'
  }

  predicate StringOk(ps: seq<Piece>) {
    forall k | 0 <= k < |ps| && ps[k].Unescaped? :: ps[k].c != '\"' && ps[k].c != '\\'
  }

  predicate JsonOk(v: Json) {
    match v
    case Literal(text) => Inert(text)
    case Str(pieces) => StringOk(pieces)
    case Array(blank, elems) => Inert(blank) && ElemsOk(elems)
    case Object(blank, members) => Inert(blank) && MembersOk(members)
  }

  predicate ElemsOk(es: Elems) {
    es.Elem? ==> Inert(es.before) && JsonOk(es.value) && Inert(es.behind) && ElemsOk(es.rest)
  }

  predicate MembersOk(ms: Members) {
    ms.Member? ==>
      Inert(ms.before) && StringOk(ms.name) && Inert(ms.colon) && JsonOk(ms.value) && Inert(ms.behind)
      && MembersOk(ms.rest)
  }

  // ---- A value leaves the scan where it was ----

  /** The text is read without stopping and without a lasting effect. */
  predicate Through(s: string, d: int) { After(s, State(d, false, false)) == Some(State(d, false, false)) }

  lemma {:induction false} ThroughConcat(a: string, b: string, d: int)
    requires Through(a, d) && Through(b, d)
    ensures Through(a + b, d)
  {
    AfterConcat(a, b, State(d, false, false));
  }

  lemma {:induction false} InertThrough(s: string, d: int)
    requires Inert(s)
    ensures Through(s, d)
  {
    if s != "" { InertThrough(s[1..], d); }
  }

  lemma {:induction false} One(c: char, st: State)
    ensures After([c], st) == if Closes(st, c) then None else Some(Step(st, c))
  {
    assert [c][1..] == "";
  }

  lemma {:induction false} PieceInside(p: Piece, d: int)
    requires p.Unescaped? ==> p.c != '\"' && p.c != '\\'
    ensures After(PieceText(p), State(d, true, false)) == Some(State(d, true, false))
  {
    if p.Escaped? {
      One('\\', State(d, true, false));
      One(p.c, State(d, true, true));
      AfterConcat(['\\'], [p.c], State(d, true, false));
      assert PieceText(p) == ['\\'] + [p.c];
    } else {
      One(p.c, State(d, true, false));
    }
  }

  lemma {:induction false} PiecesInside(ps: seq<Piece>, d: int)
    requires StringOk(ps)
    ensures After(PiecesText(ps), State(d, true, false)) == Some(State(d, true, false))
  {
    if ps != [] {
      PieceInside(ps[0], d);
      PiecesInside(ps[1..], d);
      AfterConcat(PieceText(ps[0]), PiecesText(ps[1..]), State(d, true, false));
    }
  }

  lemma {:induction false} StringThrough(ps: seq<Piece>, d: int)
    requires StringOk(ps)
    ensures Through(StringText(ps), d)
  {
    One('\"', State(d, false, false));
    One('\"', State(d, true, false));
    PiecesInside(ps, d);
    AfterConcat(PiecesText(ps), "\"", State(d, true, false));
    AfterConcat("\"", PiecesText(ps) + "\"", State(d, false, false));
  }

  /** At depth one or more, a value is read through: braces, quotes and escapes inside it balance. */
  lemma {:induction false} ValueThrough(v: Json, d: int)
    requires JsonOk(v) && d >= 1
    ensures Through(JsonText(v), d)
  {
    match v
    case Literal(text) => InertThrough(text, d);
    case Str(pieces) => StringThrough(pieces, d);
    case Array(blank, elems) =>
      InertThrough(blank, d);
      ElemsThrough(elems, d);
      InertThrough("[", d);
      InertThrough("]", d);
      ThroughConcat(ElemsText(elems), "]", d);
      ThroughConcat(blank, ElemsText(elems) + "]", d);
      ThroughConcat("[", blank + (ElemsText(elems) + "]"), d);
    case Object(blank, members) =>
      ObjectInside(blank, members, d);
      One('}', State(d + 1, false, false));
      AfterConcat("{" + (blank + MembersText(members)), "}", State(d, false, false));
      assert JsonText(v) == "{" + (blank + MembersText(members)) + "}";
  }

  /** An object without its closing brace raises the depth by one. */
  lemma {:induction false} ObjectInside(blank: string, members: Members, d: int)
    requires Inert(blank) && MembersOk(members) && d >= 0
    ensures After("{" + (blank + MembersText(members)), State(d, false, false)) == Some(State(d + 1, false, false))
    decreases members, 1
  {
    InertThrough(blank, d + 1);
    MembersThrough(members, d + 1);
    ThroughConcat(blank, MembersText(members), d + 1);
    One('{', State(d, false, false));
    AfterConcat("{", blank + MembersText(members), State(d, false, false));
  }

  lemma {:induction false} ElemsThrough(es: Elems, d: int)
    requires ElemsOk(es) && d >= 1
    ensures Through(ElemsText(es), d)
  {
    match es
    case NoElems =>
    case Elem(before, value, behind, rest) =>
      var comma := if rest.NoElems? then "" else ",";
      InertThrough(before, d);
      ValueThrough(value, d);
      InertThrough(behind, d);
      InertThrough(comma, d);
      ElemsThrough(rest, d);
      ThroughConcat(comma, ElemsText(rest), d);
      ThroughConcat(behind, comma + ElemsText(rest), d);
      ThroughConcat(JsonText(value), behind + (comma + ElemsText(rest)), d);
      ThroughConcat(before, JsonText(value) + (behind + (comma + ElemsText(rest))), d);
  }

  lemma {:induction false} MembersThrough(ms: Members, d: int)
    requires MembersOk(ms) && d >= 1
    ensures Through(MembersText(ms), d)
    decreases ms, 0
  {
    match ms
    case NoMembers =>
    case Member(before, name, colon, value, behind, rest) =>
      var comma := if rest.NoMembers? then "" else ",";
      InertThrough(before, d);
      StringThrough(name, d);
      InertThrough(colon, d);
      ValueThrough(value, d);
      InertThrough(behind, d);
      InertThrough(comma, d);
      MembersThrough(rest, d);
      var t0 := comma + MembersText(rest);
      ThroughConcat(comma, MembersText(rest), d);
      ThroughConcat(behind, t0, d);
      ThroughConcat(JsonText(value), behind + t0, d);
      ThroughConcat(colon, JsonText(value) + (behind + t0), d);
      ThroughConcat(StringText(name), colon + (JsonText(value) + (behind + t0)), d);
      ThroughConcat(before, StringText(name) + (colon + (JsonText(value) + (behind + t0))), d);
  }

  /** The main result: whatever follows an object, the scan that starts at its opening brace stops
      exactly at its closing one. */
  lemma {:induction false} ScanFindsObject(o: Json, suffix: string)
    requires o.Object? && JsonOk(o)
    ensures StopAt(JsonText(o) + suffix, OUTSIDE) == Some(|JsonText(o)|)
  {
    var inside := "{" + (o.blank + MembersText(o.members));
    ObjectInside(o.blank, o.members, 0);
    AfterConcat(inside, "}" + suffix, OUTSIDE);
    assert JsonText(o) == inside + "}";
    assert JsonText(o) + suffix == inside + ("}" + suffix);
    assert ("}" + suffix)[0] == '}';
  }

  // ---- The fallback search over every opening brace ----

  /** The text cut out by the scan that starts at `start`, if the scan ends. */
  function Candidate(text: string, start: nat): Option<string>
    requires start <= |text|
  {
    var end := StopAt(text[start..], OUTSIDE);
    if start < |text| && text[start] == '{' && end.Some? && end.value <= |text| - start
    then Some(text[start..start + end.value]) else None
  }

  predicate Hit(text: string, accept: string -> bool, start: nat) {
    start <= |text| && Candidate(text, start).Some? && accept(Candidate(text, start).value)
  }

  /** What the search promises: the earliest hit if there is one. */
  predicate FirstHit(text: string, accept: string -> bool, found: Option<string>, at: nat) {
    if found.Some? then
      && Hit(text, accept, at) && found == Candidate(text, at)
      && forall k | 0 <= k < at :: !Hit(text, accept, k)
    else forall k | 0 <= k <= |text| :: !Hit(text, accept, k)
  }

  /** The first opening brace whose candidate parses and has the keys asked for; `accept` stands
      for the JSON parser and the key test. */
  method FallbackSearch(text: string, accept: string -> bool) returns (found: Option<string>, at: nat)
    ensures FirstHit(text, accept, found, at)
  {
    at := 0;
    while at < |text|
      invariant 0 <= at <= |text|
      invariant forall k | 0 <= k < at :: !Hit(text, accept, k)
    {
      if text[at] == '{' {
        var end := ScanObject(text[at..]);
        if end.Some? && accept(text[at..at + end.value]) {
          return Some(text[at..at + end.value]), at;
        }
      }
      at := at + 1;
    }
    found := None;
  }

  /** An object anywhere in an answer is a candidate of the search. */
  lemma {:induction false} ObjectIsCandidate(prefix: string, o: Json, suffix: string)
    requires o.Object? && JsonOk(o)
    ensures Candidate(prefix + JsonText(o) + suffix, |prefix|) == Some(JsonText(o))
  {
    var text := prefix + JsonText(o) + suffix;
    assert text[|prefix|..] == JsonText(o) + suffix;
    ScanFindsObject(o, suffix);
    assert text[|prefix|..|prefix| + |JsonText(o)|] == JsonText(o);
  }

  /** An acceptable object is never missed: the search finds it, or something acceptable that
      starts earlier; and with no opening brace before it, it is what the search finds. */
  lemma {:induction false} FallbackFindsObject(
    prefix: string, o: Json, suffix: string, accept: string -> bool, found: Option<string>, at: nat)
    requires o.Object? && JsonOk(o) && accept(JsonText(o))
    requires FirstHit(prefix + JsonText(o) + suffix, accept, found, at)
    ensures found.Some? && at <= |prefix| && accept(found.value)
    ensures '{' !in prefix ==> found == Some(JsonText(o))
  {
    var text := prefix + JsonText(o) + suffix;
    ObjectIsCandidate(prefix, o, suffix);
    assert Hit(text, accept, |prefix|);
    if at < |prefix| {
      assert text[at] == prefix[at];
    }
  }

  // ---- The keyed scan ----

  /** What the pattern of the keyed scan matches: a brace, white space and a quoted key. */
  function KeyedMatch(blank: string, key: string): string { "{" + (blank + ("\"" + (key + "\""))) }

  /** The keyed scan looks only at its own match, which closes no brace: it never ends, so it
      never proposes a candidate. */
  lemma {:induction false} KeyedScanNeverStops(blank: string, key: string)
    requires forall k | 0 <= k < |blank| :: IsWhite(blank[k])
    requires '\"' !in key && '\\' !in key
    ensures KeyedMatch(blank, key) == "{" + blank + "\"" + key + "\""
    ensures StopAt(KeyedMatch(blank, key), OUTSIDE) == None
  {
    var pieces := seq(|key|, k requires 0 <= k < |key| => Unescaped(key[k]));
    PlainPieces(key, pieces);
    StringThrough(pieces, 1);
    InertThrough(blank, 1);
    ThroughConcat(blank, StringText(pieces), 1);
    One('{', OUTSIDE);
    AfterConcat("{", blank + StringText(pieces), OUTSIDE);
    AfterStops(KeyedMatch(blank, key), OUTSIDE);
  }

  lemma {:induction false} PlainPieces(key: string, pieces: seq<Piece>)
    requires |pieces| == |key| && forall k | 0 <= k < |key| :: pieces[k] == Unescaped(key[k])
    ensures PiecesText(pieces) == key
  {
    if key != "" { PlainPieces(key[1..], pieces[1..]); }
  }

  lemma {:induction false} AfterStops(s: string, st: State)
    ensures After(s, st).Some? <==> StopAt(s, st).None?
  {
    if s != "" && !Closes(st, s[0]) { AfterStops(s[1..], Step(st, s[0])); }
  }
}
