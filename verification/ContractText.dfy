/** `Contract::render` and `Contract::parse` (src/store.rs): the contract file is the
    store that every steering command reads, edits and writes back. */
module ContractText {
  import opened Text
  import opened Contracts

  // ---- Lines ----

  /** The position of the first newline, or the length. */
  function Newline(s: string): (i: nat)
    ensures i <= |s| && (i < |s| ==> s[i] == '\n')
    ensures forall k | 0 <= k < i :: s[k] != '\n'
  {
    if s == "" || s[0] == '\n' then 0 else 1 + Newline(s[1..])
  }

  function StripCr(s: string): string {
    if s != "" && s[|s| - 1] == '\r' then s[..|s| - 1] else s
  }

  /** `str::lines`: a final piece without a newline keeps its carriage return. */
  function Lines(s: string): seq<string> {
    var i := Newline(s);
    if s == "" then []
    else if i == |s| then [s]
    else [StripCr(s[..i])] + Lines(s[i + 1..])
  }

  /** What a block of text becomes once it is written with a newline after it. */
  function LinesOf(s: string): (r: seq<string>)
    ensures r != []
  {
    var i := Newline(s);
    if i == |s| then [StripCr(s)] else [StripCr(s[..i])] + LinesOf(s[i + 1..])
  }

  function Join(ls: seq<string>): string {
    if ls == [] then "" else if |ls| == 1 then ls[0] else ls[0] + "\n" + Join(ls[1..])
  }

  lemma {:induction false} NewlineOf(s: string, t: string)
    ensures Newline(s + "\n" + t) == Newline(s)
  {
    var u, i := s + "\n" + t, Newline(s);
    assert u[i] == '\n' && forall k | 0 <= k < i :: u[k] == s[k];
  }

  lemma {:induction false} LinesOfBlock(s: string, t: string)
    ensures Lines(s + "\n" + t) == LinesOf(s) + Lines(t)
    decreases |s|
  {
    var u, i := s + "\n" + t, Newline(s);
    NewlineOf(s, t);
    assert u[..i] == s[..i];
    if i == |s| {
      assert u[i + 1..] == t;
      assert s[..i] == s;
    } else {
      assert u[i + 1..] == s[i + 1..] + "\n" + t;
      LinesOfBlock(s[i + 1..], t);
      assert [StripCr(s[..i])] + (LinesOf(s[i + 1..]) + Lines(t)) == LinesOf(s) + Lines(t);
    }
  }

  // ---- Rendering ----

  function Bullets(items: seq<string>): (r: seq<string>)
    ensures |r| == if items == [] then 1 else |items|
  {
    if items == [] then ["- (none stated)"]
    else seq(|items|, i requires 0 <= i < |items| => "- " + Trim(items[i]))
  }

  datatype Section = Section(title: string, body: seq<string>)

  function Preamble(nid: string, depth: nat, parent: Option<string>): seq<string> {
    ["# Contract: " + nid, "", "- node: " + nid,
     "- parent: " + (if parent.Some? then parent.value else "(none)"), "- depth: " + Decimal(depth), ""]
  }

  function ListSections(c: Contract): seq<Section> {
    [Section("Acceptance criteria", Bullets(c.acceptanceCriteria)),
     Section("Interfaces", Bullets(c.interfaces)),
     Section("Inherited constraints", Bullets(c.constraints)),
     Section("depends_on", Bullets(c.dependsOn)),
     Section("verification", Bullets(c.verification)),
     Section("manual verification", Bullets(c.manualVerification))]
  }

  function Sections(c: Contract): seq<Section> {
    [Section("id", [c.id]), Section("Goal", [Trim(c.goal), ""])] + ListSections(c)
  }

  function Blocks(secs: seq<Section>): seq<string> {
    if secs == [] then [] else ["## " + secs[0].title, ""] + secs[0].body + Blocks(secs[1..])
  }

  /** Every block followed by a newline. */
  function Unlines(blocks: seq<string>): string {
    if blocks == [] then "" else blocks[0] + "\n" + Unlines(blocks[1..])
  }

  function Render(c: Contract, nid: string, depth: nat, parent: Option<string>): string {
    Unlines(Preamble(nid, depth, parent) + Blocks(Sections(c)))
  }

  /** The text of a section under its header. */
  ghost function Titled(title: string, text: string): string { "## " + title + "\n\n" + text }

  ghost function Lined(items: seq<string>): string {
    if items == [] then "" else "- " + Trim(items[0]) + "\n" + Lined(items[1..])
  }

  ghost function Bulleted(items: seq<string>): string {
    if items == [] then "- (none stated)\n" else Lined(items)
  }

  lemma {:induction false} UnlinesConcat(a: seq<string>, b: seq<string>)
    ensures Unlines(a + b) == Unlines(a) + Unlines(b)
  {
    if a == [] {
      assert a + b == b;
    } else {
      assert (a + b)[1..] == a[1..] + b;
      UnlinesConcat(a[1..], b);
      assert a[0] + "\n" + (Unlines(a[1..]) + Unlines(b)) == Unlines(a) + Unlines(b);
    }
  }

  lemma {:induction false} BulletsText(items: seq<string>)
    ensures Unlines(Bullets(items)) == Bulleted(items)
  {
    if items == [] {
      assert ["- (none stated)"][1..] == [] && Unlines([]) == "";
    } else {
      LinedText(items, Bullets(items));
    }
  }

  lemma {:induction false} LinedText(items: seq<string>, lines: seq<string>)
    requires |lines| == |items| && forall k | 0 <= k < |items| :: lines[k] == "- " + Trim(items[k])
    ensures Unlines(lines) == Lined(items)
  {
    if items != [] { LinedText(items[1..], lines[1..]); }
  }

  lemma {:induction false} SectionText(title: string, body: seq<string>, rest: seq<Section>)
    ensures Unlines(Blocks([Section(title, body)] + rest)) == Titled(title, Unlines(body)) + Unlines(Blocks(rest))
  {
    var secs := [Section(title, body)] + rest;
    assert secs[1..] == rest;
    var head := ["## " + title, ""];
    assert head[1..] == [""] && [""][1..] == [];
    assert Unlines(head) == "## " + title + "\n" + ("" + "\n" + "") == "## " + title + "\n\n";
    UnlinesConcat(head + body, Blocks(rest));
    UnlinesConcat(head, body);
  }

  lemma {:induction false} ListsText(c: Contract)
    ensures Unlines(Blocks(ListSections(c))) ==
      Titled("Acceptance criteria", Bulleted(c.acceptanceCriteria)) + (Titled("Interfaces", Bulleted(c.interfaces))
      + (Titled("Inherited constraints", Bulleted(c.constraints)) + (Titled("depends_on", Bulleted(c.dependsOn))
      + (Titled("verification", Bulleted(c.verification))
      + Titled("manual verification", Bulleted(c.manualVerification))))))
  {
    hide Titled, Bulleted, Bullets, Unlines, Blocks;
    var secs := ListSections(c);
    var manual := Titled("manual verification", Bulleted(c.manualVerification));
    assert secs[5..] == [secs[5]] + [] && secs[4..] == [secs[4]] + secs[5..] && secs[3..] == [secs[3]] + secs[4..];
    assert secs[2..] == [secs[2]] + secs[3..] && secs[1..] == [secs[1]] + secs[2..] && secs == [secs[0]] + secs[1..];
    ListText("manual verification", c.manualVerification, []);
    NoSections();
    assert Unlines(Blocks(secs[5..])) == manual + "" == manual;
    ListText("verification", c.verification, secs[5..]);
    ListText("depends_on", c.dependsOn, secs[4..]);
    ListText("Inherited constraints", c.constraints, secs[3..]);
    ListText("Interfaces", c.interfaces, secs[2..]);
    ListText("Acceptance criteria", c.acceptanceCriteria, secs[1..]);
  }

  lemma {:induction false} NoSections()
    ensures Unlines(Blocks([])) == ""
  {
  }

  lemma {:induction false} ListText(title: string, items: seq<string>, rest: seq<Section>)
    ensures Unlines(Blocks([Section(title, Bullets(items))] + rest)) ==
      Titled(title, Bulleted(items)) + Unlines(Blocks(rest))
  {
    SectionText(title, Bullets(items), rest);
    BulletsText(items);
  }

  /** The lines above the first section. */
  ghost function Heading(nid: string, depth: nat, parent: Option<string>): string {
    ("# Contract: " + nid) + "\n" + "\n" + ("- node: " + nid) + "\n"
    + ("- parent: " + (if parent.None? then "(none)" else parent.value)) + "\n"
    + ("- depth: " + Decimal(depth)) + "\n" + "\n"
  }

  lemma {:induction false} HeadingText(nid: string, depth: nat, parent: Option<string>)
    ensures Unlines(Preamble(nid, depth, parent)) == Heading(nid, depth, parent)
  {
    var a, b, c, d := "# Contract: " + nid, "- node: " + nid,
      "- parent: " + (if parent.Some? then parent.value else "(none)"), "- depth: " + Decimal(depth);
    assert Preamble(nid, depth, parent) == [a, "", b, c, d, ""];
    SixLines(a, "", b, c, d, "");
    assert a + "\n" + "" == a + "\n";
    var most := a + "\n" + "\n" + b + "\n" + c + "\n" + d + "\n";
    assert most + "" == most;
  }

  lemma {:induction false} SixLines(a: string, b: string, c: string, d: string, e: string, f: string)
    ensures Unlines([a, b, c, d, e, f]) ==
      a + "\n" + b + "\n" + c + "\n" + d + "\n" + e + "\n" + f + "\n"
  {
    ThreeLines(a, b, c);
    ThreeLines(d, e, f);
    UnlinesConcat([a, b, c], [d, e, f]);
    assert [a, b, c] + [d, e, f] == [a, b, c, d, e, f];
    var front := a + "\n" + b + "\n" + c + "\n";
    assert front + (d + "\n" + e + "\n" + f + "\n") == front + d + "\n" + e + "\n" + f + "\n";
  }

  lemma {:induction false} ThreeLines(a: string, b: string, c: string)
    ensures Unlines([a, b, c]) == a + "\n" + b + "\n" + c + "\n"
  {
    assert [a, b, c][1..] == [b, c] && [b, c][1..] == [c] && [c][1..] == [];
    assert Unlines([c]) == c + "\n" + "" == c + "\n";
    assert Unlines([b, c]) == b + "\n" + (c + "\n") == b + "\n" + c + "\n";
    assert a + "\n" + (b + "\n" + c + "\n") == a + "\n" + b + "\n" + c + "\n";
  }

  /** The contract file, as its template has it. */
  lemma {:induction false} RenderMeans(c: Contract, nid: string, depth: nat, parent: Option<string>)
    ensures Render(c, nid, depth, parent) ==
      Heading(nid, depth, parent) + (Titled("id", c.id + "\n") + (Titled("Goal", Trim(c.goal) + "\n\n")
      + (Titled("Acceptance criteria", Bulleted(c.acceptanceCriteria)) + (Titled("Interfaces", Bulleted(c.interfaces))
      + (Titled("Inherited constraints", Bulleted(c.constraints)) + (Titled("depends_on", Bulleted(c.dependsOn))
      + (Titled("verification", Bulleted(c.verification))
      + Titled("manual verification", Bulleted(c.manualVerification)))))))))
  {
    var lists := ListSections(c);
    ListsText(c);
    UnlinesConcat(Preamble(nid, depth, parent), Blocks(Sections(c)));
    HeadingText(nid, depth, parent);
    TwoSections(c, lists);
  }

  lemma {:induction false} TwoSections(c: Contract, lists: seq<Section>)
    ensures Unlines(Blocks([Section("id", [c.id]), Section("Goal", [Trim(c.goal), ""])] + lists)) ==
      Titled("id", c.id + "\n") + (Titled("Goal", Trim(c.goal) + "\n\n") + Unlines(Blocks(lists)))
  {
    var goal := Section("Goal", [Trim(c.goal), ""]);
    assert [Section("id", [c.id]), goal] + lists == [Section("id", [c.id])] + ([goal] + lists);
    SectionText("id", [c.id], [goal] + lists);
    SectionText("Goal", [Trim(c.goal), ""], lists);
    assert [c.id][1..] == [] && [Trim(c.goal), ""][1..] == [""] && [""][1..] == [];
    assert Unlines([c.id]) == c.id + "\n" + "" == c.id + "\n";
    assert Unlines([""]) == "" + "\n" + "" == "\n";
    assert Unlines([Trim(c.goal), ""]) == Trim(c.goal) + "\n" + "\n" == Trim(c.goal) + "\n\n";
  }

  // ---- Parsing ----

  predicate IsHeader(line: string) {
    |line| >= 3 && line[0] == '#' && line[1] == '#' && line[2] == ' '
  }

  lemma {:induction false} HeaderMeans(line: string)
    ensures IsHeader(line) <==> "## " <= line
  {
    assert "## " == ['#', '#', ' '];
  }

  function LowerChar(c: char): char {
    if 'A' <= c <= 'Z' then (c as int + 32) as char else c
  }

  /** `to_lowercase`, exact on the section names, which are ASCII. */
  function Lower(s: string): (r: string)
    ensures |r| == |s| && forall i | 0 <= i < |s| :: r[i] == LowerChar(s[i])
  {
    seq(|s|, i requires 0 <= i < |s| => LowerChar(s[i]))
  }

  function HeaderKey(line: string): string
    requires IsHeader(line)
  {
    Lower(Trim(line[3..]))
  }

  /** The lines of section `key`, reading on from inside section `current`. */
  function Collect(lines: seq<string>, current: Option<string>, key: string): seq<string> {
    if lines == [] then []
    else if IsHeader(lines[0]) then Collect(lines[1..], Some(HeaderKey(lines[0])), key)
    else (if current == Some(key) then [lines[0]] else []) + Collect(lines[1..], current, key)
  }

  function Body(ls: seq<string>): string {
    Trim(Join(ls))
  }

  /** One bulleted line's item, if the line is one. */
  function Item(line: string): Option<string> {
    var l := Trim(line);
    if l == "" || l[0] != '-' then None
    else
      var item := Trim(l[1..]);
      if item == "" || item == "(none stated)" then None else Some(item)
  }

  function Unbullet(ls: seq<string>): seq<string> {
    if ls == [] then []
    else
      var item := Item(ls[0]);
      (if item.Some? then [item.value] else []) + Unbullet(ls[1..])
  }

  function FromSections(section: string -> seq<string>): Contract {
    Contract(
      Body(section("goal")),
      Unbullet(section("acceptance criteria")),
      Unbullet(section("interfaces")),
      Unbullet(section("inherited constraints")),
      Body(section("id")),
      Unbullet(section("depends_on")),
      Unbullet(section("verification")),
      Unbullet(section("manual verification")),
      0)
  }

  function ParseLines(lines: seq<string>): Contract {
    FromSections(key => Collect(lines, None, key))
  }

  function Parse(text: string): Contract {
    ParseLines(Lines(text))
  }

  function CurrentAfter(lines: seq<string>, current: Option<string>): Option<string> {
    if lines == [] then current
    else CurrentAfter(lines[1..], if IsHeader(lines[0]) then Some(HeaderKey(lines[0])) else current)
  }

  lemma {:induction false} CollectConcat(a: seq<string>, b: seq<string>, current: Option<string>, key: string)
    ensures Collect(a + b, current, key) == Collect(a, current, key) + Collect(b, CurrentAfter(a, current), key)
    ensures CurrentAfter(a + b, current) == CurrentAfter(b, CurrentAfter(a, current))
  {
    if a == [] {
      assert a + b == b;
    } else {
      assert (a + b)[1..] == a[1..] + b;
      CollectConcat(a[1..], b, if IsHeader(a[0]) then Some(HeaderKey(a[0])) else current, key);
    }
  }

  lemma {:induction false} CollectOne(line: string, current: Option<string>, key: string)
    ensures Collect([line], current, key) == if !IsHeader(line) && current == Some(key) then [line] else []
    ensures CurrentAfter([line], current) == if IsHeader(line) then Some(HeaderKey(line)) else current
  {
    assert [line][1..] == [];
  }

  lemma {:induction false} CollectSnoc(lines: seq<string>, i: nat, key: string)
    requires i < |lines|
    ensures Collect(lines[..i + 1], None, key) == Collect(lines[..i], None, key)
      + if !IsHeader(lines[i]) && CurrentAfter(lines[..i], None) == Some(key) then [lines[i]] else []
    ensures CurrentAfter(lines[..i + 1], None)
         == if IsHeader(lines[i]) then Some(HeaderKey(lines[i])) else CurrentAfter(lines[..i], None)
  {
    assert lines[..i + 1] == lines[..i] + [lines[i]];
    CollectConcat(lines[..i], [lines[i]], None, key);
    CollectOne(lines[i], CurrentAfter(lines[..i], None), key);
  }

  // ---- Letter case in headers ----

  ghost function Capital(k: nat): char
    requires k < 26
  {
    "ABCDEFGHIJKLMNOPQRSTUVWXYZ"[k]
  }

  ghost function Small(k: nat): char
    requires k < 26
  {
    "abcdefghijklmnopqrstuvwxyz"[k]
  }

  /** The same character, or the two cases of one ASCII letter. */
  ghost predicate SameLetter(c: char, d: char) {
    c == d || exists k: nat | k < 26 :: (c == Capital(k) && d == Small(k)) || (c == Small(k) && d == Capital(k))
  }

  ghost predicate SameLetters(s: string, t: string) {
    |s| == |t| && forall i | 0 <= i < |s| :: SameLetter(s[i], t[i])
  }

  lemma {:induction false} LettersInOrder(k: nat)
    requires k < 26
    ensures Capital(k) as int == 'A' as int + k && Small(k) as int == 'a' as int + k
  {
    assert "ABCDEFGHIJKLMNOPQRSTUVWXYZ" ==
      ['A', 'B', 'C', 'D', 'E', 'F', 'G', 'H', 'I', 'J', 'K', 'L', 'M',
       'N', 'O', 'P', 'Q', 'R', 'S', 'T', 'U', 'V', 'W', 'X', 'Y', 'Z'];
    assert "abcdefghijklmnopqrstuvwxyz" ==
      ['a', 'b', 'c', 'd', 'e', 'f', 'g', 'h', 'i', 'j', 'k', 'l', 'm',
       'n', 'o', 'p', 'q', 'r', 's', 't', 'u', 'v', 'w', 'x', 'y', 'z'];
  }

  lemma {:induction false} LowerIsLetter(c: char, d: char)
    ensures LowerChar(c) == LowerChar(d) <==> SameLetter(c, d)
  {
    hide Capital, Small;
    forall k: nat | k < 26 ensures Capital(k) as int == 'A' as int + k && Small(k) as int == 'a' as int + k {
      LettersInOrder(k);
    }
    if LowerChar(c) == LowerChar(d) && c != d {
      var k := if c < d then c as int - 'A' as int else d as int - 'A' as int;
      assert 0 <= k < 26 && ((c == Capital(k) && d == Small(k)) || (c == Small(k) && d == Capital(k)));
    }
  }

  /** Two headers open the same section exactly when their titles differ in the case of letters alone. */
  lemma {:induction false} HeaderKeyMeans(a: string, b: string)
    requires IsHeader(a) && IsHeader(b)
    ensures HeaderKey(a) == HeaderKey(b) <==> SameLetters(Trim(a[3..]), Trim(b[3..]))
  {
    var s, t := Trim(a[3..]), Trim(b[3..]);
    forall i | 0 <= i < |s| && i < |t| ensures Lower(s)[i] == Lower(t)[i] <==> SameLetter(s[i], t[i]) {
      LowerIsLetter(s[i], t[i]);
    }
    hide SameLetter, LowerChar;
    if HeaderKey(a) == HeaderKey(b) {
      assert |s| == |Lower(s)| == |t|;
      forall i | 0 <= i < |s| ensures SameLetter(s[i], t[i]) { assert Lower(s)[i] == Lower(t)[i]; }
    }
    if SameLetters(s, t) {
      assert Lower(s) == Lower(t);
    }
  }

  /** So a file whose headers are written in another case says the same. */
  lemma {:induction false} HeaderCaseIsIgnored(before: seq<string>, a: string, b: string, rest: seq<string>)
    requires IsHeader(a) && IsHeader(b) && SameLetters(Trim(a[3..]), Trim(b[3..]))
    ensures ParseLines(before + [a] + rest) == ParseLines(before + [b] + rest)
  {
    HeaderKeyMeans(a, b);
    hide IsHeader, HeaderKey, FromSections;
    forall key: string
      ensures Collect(before + [a] + rest, None, key) == Collect(before + [b] + rest, None, key)
    {
      HeaderFiles(before, a, rest, key);
      HeaderFiles(before, b, rest, key);
    }
    SameSections(key => Collect(before + [a] + rest, None, key), key => Collect(before + [b] + rest, None, key));
  }

  lemma {:induction false} HeaderFiles(before: seq<string>, a: string, rest: seq<string>, key: string)
    requires IsHeader(a)
    ensures Collect(before + [a] + rest, None, key) ==
      Collect(before, None, key) + Collect(rest, Some(HeaderKey(a)), key)
  {
    assert before + [a] + rest == before + ([a] + rest) && ([a] + rest)[1..] == rest;
    CollectConcat(before, [a] + rest, None, key);
  }

  function Entry(sections: map<string, seq<string>>, key: string): seq<string> {
    if key in sections then sections[key] else []
  }

  /** The section map, filled line by line. */
  method BuildSections(lines: seq<string>) returns (sections: map<string, seq<string>>)
    ensures forall key :: Entry(sections, key) == Collect(lines, None, key)
  {
    sections := map[];
    var current: Option<string> := None;
    for i := 0 to |lines|
      invariant current == CurrentAfter(lines[..i], None)
      invariant current.Some? ==> current.value in sections
      invariant forall key :: Entry(sections, key) == Collect(lines[..i], None, key)
    {
      var line := lines[i];
      CollectSnoc(lines, i, "");
      forall key: string
        ensures Collect(lines[..i + 1], None, key) ==
          Entry(sections, key) + if !IsHeader(line) && current == Some(key) then [line] else []
      {
        CollectSnoc(lines, i, key);
      }
      if IsHeader(line) {
        current := Some(HeaderKey(line));
        sections := sections[current.value := Entry(sections, current.value)];
      } else if current.Some? {
        sections := sections[current.value := sections[current.value] + [line]];
      }
    }
    assert lines[..|lines|] == lines;
  }

  /** `parse` reads its fields off that map. */
  method ParseContract(text: string) returns (c: Contract)
    ensures c == Parse(text)
  {
    var sections := BuildSections(Lines(text));
    c := FromSections(key => Entry(sections, key));
    SameSections(key => Entry(sections, key), key => Collect(Lines(text), None, key));
  }

  lemma {:induction false} SameSections(a: string -> seq<string>, b: string -> seq<string>)
    requires forall key :: a(key) == b(key)
    ensures FromSections(a) == FromSections(b)
  {
  }

  // ---- What survives a round trip ----

  /** No line of `s` looks like a section header or ends in a carriage return. */
  predicate PlainLines(s: string)
    decreases |s|
  {
    var i := Newline(s);
    && !IsHeader(s[..i]) && StripCr(s[..i]) == s[..i]
    && (i < |s| ==> PlainLines(s[i + 1..]))
  }

  predicate Plain(s: string) { Trim(s) == s && PlainLines(s) }

  predicate CleanItem(s: string) {
    Trim(s) == s && s != "" && s != "(none stated)" && '\n' !in s
  }

  predicate CleanList(items: seq<string>) { forall k | 0 <= k < |items| :: CleanItem(items[k]) }

  /** The contracts that the file format can hold. */
  predicate Renderable(c: Contract) {
    && Plain(c.id) && Plain(c.goal)
    && CleanList(c.acceptanceCriteria) && CleanList(c.interfaces) && CleanList(c.constraints)
    && CleanList(c.dependsOn) && CleanList(c.verification) && CleanList(c.manualVerification)
  }

  // ---- Trimming around the blank lines of a section ----

  lemma {:induction false} TrimHead(x: string)
    ensures Trim("\n" + x) == Trim(x)
  {
    assert ("\n" + x)[1..] == x;
  }

  lemma {:induction false} TrimTail(x: string)
    ensures Trim(x + "\n") == Trim(x)
  {
    if x == "" {
      assert x + "\n" == "\n" + x;
      TrimHead(x);
    } else if IsWhite(x[0]) {
      assert (x + "\n")[1..] == x[1..] + "\n";
      TrimTail(x[1..]);
    } else {
      assert (x + "\n")[..|x|] == x;
    }
  }

  lemma {:induction false} JoinSnocBlank(ls: seq<string>)
    requires ls != []
    ensures Join(ls + [""]) == Join(ls) + "\n"
  {
    if |ls| == 1 {
      assert (ls + [""])[1..] == [""];
    } else {
      assert (ls + [""])[1..] == ls[1..] + [""];
      JoinSnocBlank(ls[1..]);
    }
  }

  /** A section's leading and trailing blank lines are not part of its body. */
  lemma {:induction false} BodyOfBlock(ls: seq<string>)
    requires ls != []
    ensures Body([""] + ls) == Trim(Join(ls)) && Body([""] + ls + [""]) == Trim(Join(ls))
  {
    assert ([""] + ls)[1..] == ls;
    TrimHead(Join(ls));
    JoinSnocBlank([""] + ls);
    TrimTail(Join([""] + ls));
  }

  // ---- Weights: characters, one more for each line ----

  function Weight(ls: seq<string>): (w: nat) {
    if ls == [] then 0 else |ls[0]| + 1 + Weight(ls[1..])
  }

  /** The weight of the lines that are no headers. */
  function PlainWeight(ls: seq<string>): (w: nat) {
    if ls == [] then 0 else (if IsHeader(ls[0]) then 0 else |ls[0]| + 1) + PlainWeight(ls[1..])
  }

  predicate HasHeader(ls: seq<string>) {
    ls != [] && (IsHeader(ls[0]) || HasHeader(ls[1..]))
  }

  lemma {:induction false} HeaderCosts(ls: seq<string>)
    ensures PlainWeight(ls) <= Weight(ls) && (HasHeader(ls) ==> PlainWeight(ls) + 4 <= Weight(ls))
  {
    if ls != [] { HeaderCosts(ls[1..]); }
  }

  lemma {:induction false} PlainWeightConcat(a: seq<string>, b: seq<string>)
    ensures PlainWeight(a + b) == PlainWeight(a) + PlainWeight(b)
    ensures HasHeader(a + b) <==> HasHeader(a) || HasHeader(b)
  {
    if a == [] {
      assert a + b == b;
    } else {
      assert (a + b)[1..] == a[1..] + b;
      PlainWeightConcat(a[1..], b);
    }
  }

  lemma {:induction false} JoinWeight(ls: seq<string>)
    requires ls != []
    ensures |Join(ls)| + 1 == Weight(ls)
  {
    if |ls| == 1 {
      assert ls[1..] == [];
    } else {
      JoinWeight(ls[1..]);
    }
  }

  /** Two sections never share a line. */
  lemma {:induction false} SectionsAreDisjoint(ls: seq<string>, current: Option<string>, a: string, b: string)
    requires a != b
    ensures Weight(Collect(ls, current, a)) + Weight(Collect(ls, current, b)) <= PlainWeight(ls)
  {
    if ls != [] {
      if IsHeader(ls[0]) {
        SectionsAreDisjoint(ls[1..], Some(HeaderKey(ls[0])), a, b);
      } else {
        SectionsAreDisjoint(ls[1..], current, a, b);
        ConsWeight(ls[0], Collect(ls[1..], current, a));
        ConsWeight(ls[0], Collect(ls[1..], current, b));
        NilPlus(Collect(ls[1..], current, a));
        NilPlus(Collect(ls[1..], current, b));
      }
    }
  }

  lemma {:induction false} ConsWeight(l: string, ls: seq<string>)
    ensures Weight([l] + ls) == |l| + 1 + Weight(ls)
  {
    assert ([l] + ls)[1..] == ls;
  }

  lemma {:induction false} NilPlus(ls: seq<string>)
    ensures [] + ls == ls
  {
  }

  lemma {:induction false} LinesOfStep(s: string)
    requires Newline(s) < |s|
    ensures LinesOf(s) == [StripCr(s[..Newline(s)])] + LinesOf(s[Newline(s) + 1..])
    ensures LinesOf(s)[1..] == LinesOf(s[Newline(s) + 1..])
  {
  }

  lemma {:induction false} LinesOfLast(s: string)
    requires Newline(s) == |s|
    ensures LinesOf(s) == [StripCr(s)] && LinesOf(s)[1..] == [] && s[..|s|] == s
  {
  }

  /** Writing a text and reading its lines back loses a character for every carriage return. */
  lemma {:induction false} LinesWeight(s: string)
    ensures Weight(LinesOf(s)) <= |s| + 1
    ensures !PlainLines(s) && !HasHeader(LinesOf(s)) ==> Weight(LinesOf(s)) <= |s|
    decreases |s|
  {
    StripKeepsHeader(s[..Newline(s)]);
    if Newline(s) == |s| {
      LinesOfLast(s);
    } else {
      LinesOfStep(s);
      LinesWeight(s[Newline(s) + 1..]);
    }
  }

  /** A text of plain lines is its lines joined, and none of them is a header. */
  lemma {:induction false} PlainLinesJoin(s: string)
    requires PlainLines(s)
    ensures Join(LinesOf(s)) == s && !HasHeader(LinesOf(s))
    decreases |s|
  {
    if Newline(s) == |s| {
      LinesOfLast(s);
    } else {
      var i := Newline(s);
      LinesOfStep(s);
      PlainLinesJoin(s[i + 1..]);
      assert s == s[..i] + "\n" + s[i + 1..];
    }
  }

  lemma {:induction false} StripKeepsHeader(s: string)
    ensures IsHeader(StripCr(s)) <==> IsHeader(s)
  {
  }
}
