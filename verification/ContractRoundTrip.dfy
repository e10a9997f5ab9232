/** What reading a written contract gives back (src/store.rs `Contract`), exactly. */
module ContractRoundTrip {
  import opened Text
  import opened Contracts
  import opened ContractText

  // ---- The lines of a written document ----

  function DocLines(blocks: seq<string>): seq<string> {
    if blocks == [] then [] else LinesOf(blocks[0]) + DocLines(blocks[1..])
  }

  lemma {:induction false} LinesOfDocument(blocks: seq<string>)
    ensures Lines(Unlines(blocks)) == DocLines(blocks)
  {
    if blocks != [] {
      LinesOfBlock(blocks[0], Unlines(blocks[1..]));
      LinesOfDocument(blocks[1..]);
    }
  }

  lemma {:induction false} DocLinesConcat(a: seq<string>, b: seq<string>)
    ensures DocLines(a + b) == DocLines(a) + DocLines(b)
  {
    if a == [] {
      assert a + b == b;
    } else {
      assert (a + b)[1..] == a[1..] + b;
      DocLinesConcat(a[1..], b);
    }
  }

  /** A block that is one line and stays that line. */
  predicate OneLine(s: string) { '\n' !in s && (s == "" || s[|s| - 1] != '\r') }

  lemma {:induction false} OneLineStays(s: string)
    requires OneLine(s)
    ensures LinesOf(s) == [s]
  {
  }

  lemma {:induction false} OneLineBlocks(blocks: seq<string>)
    requires forall k | 0 <= k < |blocks| :: OneLine(blocks[k])
    ensures DocLines(blocks) == blocks
  {
    if blocks != [] {
      OneLineStays(blocks[0]);
      OneLineBlocks(blocks[1..]);
    }
  }

  lemma {:induction false} NoHeaders(ls: seq<string>)
    requires forall k | 0 <= k < |ls| :: !IsHeader(ls[k])
    ensures !HasHeader(ls)
  {
    if ls != [] { NoHeaders(ls[1..]); }
  }

  lemma {:induction false} HeaderFree(ls: seq<string>, current: Option<string>, key: string)
    requires !HasHeader(ls)
    ensures Collect(ls, current, key) == if current == Some(key) then ls else []
    ensures CurrentAfter(ls, current) == current
  {
    if ls != [] { HeaderFree(ls[1..], current, key); }
  }

  // ---- Sections ----

  function Key(title: string): string { Lower(Trim(title)) }

  function SectionLines(sec: Section): seq<string> {
    ["## " + sec.title, ""] + DocLines(sec.body)
  }

  function AllLines(secs: seq<Section>): seq<string> {
    if secs == [] then [] else SectionLines(secs[0]) + AllLines(secs[1..])
  }

  lemma {:induction false} BlocksLines(secs: seq<Section>)
    requires forall k | 0 <= k < |secs| :: OneLine(secs[k].title)
    ensures DocLines(Blocks(secs)) == AllLines(secs)
  {
    if secs != [] {
      var head := ["## " + secs[0].title, ""];
      OneLineBlocks(head);
      DocLinesConcat(head, secs[0].body);
      DocLinesConcat(head + secs[0].body, Blocks(secs[1..]));
      BlocksLines(secs[1..]);
    }
  }

  lemma {:induction false} SectionCollect(sec: Section, current: Option<string>, key: string)
    ensures Collect(SectionLines(sec), current, key) == Collect([""] + DocLines(sec.body), Some(Key(sec.title)), key)
    ensures CurrentAfter(SectionLines(sec), current) == CurrentAfter([""] + DocLines(sec.body), Some(Key(sec.title)))
  {
    var ls := SectionLines(sec);
    assert ls[1..] == [""] + DocLines(sec.body);
    assert ls[0][3..] == sec.title;
  }

  /** What a document of well-behaved sections gives for a key. */
  function Picked(secs: seq<Section>, key: string): seq<string> {
    if secs == [] then []
    else (if Key(secs[0].title) == key then [""] + DocLines(secs[0].body) else []) + Picked(secs[1..], key)
  }

  predicate BodyFree(sec: Section) { !HasHeader(DocLines(sec.body)) }

  lemma {:induction false} SectionPicked(sec: Section, current: Option<string>, key: string)
    requires BodyFree(sec)
    ensures Collect(SectionLines(sec), current, key) == if Key(sec.title) == key then [""] + DocLines(sec.body) else []
    ensures CurrentAfter(SectionLines(sec), current) == Some(Key(sec.title))
  {
    var rest := [""] + DocLines(sec.body);
    assert rest[1..] == DocLines(sec.body);
    SectionCollect(sec, current, key);
    HeaderFree(rest, Some(Key(sec.title)), key);
  }

  lemma {:induction false} AllPicked(secs: seq<Section>, current: Option<string>, key: string)
    requires forall k | 0 <= k < |secs| :: BodyFree(secs[k])
    ensures Collect(AllLines(secs), current, key) == Picked(secs, key)
  {
    if secs != [] {
      SectionPicked(secs[0], current, key);
      CollectConcat(SectionLines(secs[0]), AllLines(secs[1..]), current, key);
      AllPicked(secs[1..], Some(Key(secs[0].title)), key);
    }
  }

  lemma {:induction false} PickedNone(secs: seq<Section>, key: string)
    requires forall k | 0 <= k < |secs| :: Key(secs[k].title) != key
    ensures Picked(secs, key) == []
  {
    if secs != [] { PickedNone(secs[1..], key); }
  }

  lemma {:induction false} PickedOne(secs: seq<Section>, i: nat, key: string)
    requires i < |secs| && Key(secs[i].title) == key
    requires forall k | 0 <= k < |secs| && k != i :: Key(secs[k].title) != key
    ensures Picked(secs, key) == [""] + DocLines(secs[i].body)
  {
    if i == 0 {
      PickedNone(secs[1..], key);
    } else {
      PickedOne(secs[1..], i - 1, key);
    }
  }

  // ---- The eight titles ----

  const KEYS: seq<string> := ["id", "goal", "acceptance criteria", "interfaces", "inherited constraints", "depends_on",
                              "verification", "manual verification"]

  /** A trimmed one-line title whose lower-case form is `key`. */
  lemma {:induction false} Keyed(title: string, key: string)
    requires title != "" && !IsWhite(title[0]) && !IsWhite(title[|title| - 1]) && |title| == |key|
    requires forall i | 0 <= i < |title| :: title[i] != '\n' && LowerChar(title[i]) == key[i]
    ensures Key(title) == key && OneLine(title)
  {
    TrimFixed(title);
  }

  const TITLES: seq<string> := [
    "id", "Goal", "Acceptance criteria", "Interfaces", "Inherited constraints", "depends_on", "verification",
    "manual verification"]

  lemma {:induction false} TitleKey(k: nat)
    requires k < 8
    ensures Key(TITLES[k]) == KEYS[k] && OneLine(TITLES[k])
  {
    if k == 0 { Keyed("id", "id"); }
    if k == 1 { Keyed("Goal", "goal"); }
    if k == 2 { Keyed("Acceptance criteria", "acceptance criteria"); }
    if k == 3 { Keyed("Interfaces", "interfaces"); }
    if k == 4 { Keyed("Inherited constraints", "inherited constraints"); }
    if k == 5 { Keyed("depends_on", "depends_on"); }
    if k == 6 { Keyed("verification", "verification"); }
    if k == 7 { Keyed("manual verification", "manual verification"); }
  }

  lemma {:induction false} TitleKeys(c: Contract)
    ensures forall k | 0 <= k < 8 :: Sections(c)[k].title == TITLES[k]
    ensures forall k | 0 <= k < 8 :: Key(Sections(c)[k].title) == KEYS[k] && OneLine(Sections(c)[k].title)
  {
    forall k | 0 <= k < 8
      ensures Sections(c)[k].title == TITLES[k] && Key(Sections(c)[k].title) == KEYS[k]
      ensures OneLine(Sections(c)[k].title)
    {
      TitleKey(k);
    }
  }

  lemma {:induction false} KeysDiffer(i: nat, j: nat)
    requires i < 8 && j < 8 && i != j
    ensures KEYS[i] != KEYS[j]
  {
    assert |KEYS[i]| == |KEYS[j]| ==> KEYS[i][0] != KEYS[j][0];
  }

  // ---- The whole document ----

  /** Node ids and parent ids, which contain no newline. */
  predicate NodeNames(nid: string, parent: Option<string>) {
    '\n' !in nid && (parent.Some? ==> '\n' !in parent.value)
  }

  lemma {:induction false} PlainBlock(s: string)
    requires '\n' !in s && |s| >= 2 && s[1] != '#'
    ensures LinesOf(s) == [StripCr(s)] && !HasHeader(LinesOf(s))
  {
    assert [StripCr(s)][1..] == [];
  }

  lemma {:induction false} HeaderFreeBlocks(blocks: seq<string>)
    requires forall k | 0 <= k < |blocks| :: !HasHeader(LinesOf(blocks[k]))
    ensures !HasHeader(DocLines(blocks))
  {
    if blocks != [] {
      HeaderFreeBlocks(blocks[1..]);
      PlainWeightConcat(LinesOf(blocks[0]), DocLines(blocks[1..]));
    }
  }

  lemma {:induction false} PreambleFree(nid: string, depth: nat, parent: Option<string>)
    requires NodeNames(nid, parent)
    ensures !HasHeader(DocLines(Preamble(nid, depth, parent)))
  {
    var p := Preamble(nid, depth, parent);
    PlainBlock(p[0]);
    OneLineStays("");
    assert [""][1..] == [];
    NumbersHaveNoNewline(depth);
    PlainBlock(p[2]);
    PlainBlock(p[3]);
    PlainBlock(p[4]);
    forall k | 0 <= k < |p| ensures !HasHeader(LinesOf(p[k])) {
      assert k == 0 || k == 1 || k == 2 || k == 3 || k == 4 || k == 5;
    }
    HeaderFreeBlocks(p);
  }

  lemma {:induction false} NumbersHaveNoNewline(n: nat)
    ensures '\n' !in Decimal(n)
  {
  }

  /** What the parser sees of a rendered contract. */
  lemma {:induction false} SeenLines(c: Contract, nid: string, depth: nat, parent: Option<string>, key: string)
    requires NodeNames(nid, parent)
    ensures Collect(Lines(Render(c, nid, depth, parent)), None, key) == Collect(AllLines(Sections(c)), None, key)
  {
    var p := Preamble(nid, depth, parent);
    LinesOfDocument(p + Blocks(Sections(c)));
    DocLinesConcat(p, Blocks(Sections(c)));
    TitleKeys(c);
    BlocksLines(Sections(c));
    PreambleFree(nid, depth, parent);
    HeaderFree(DocLines(p), None, key);
    CollectConcat(DocLines(p), AllLines(Sections(c)), None, key);
  }

  // ---- List sections ----

  /** A bulleted item is read back exactly when it is clean. */
  lemma {:induction false} ItemOfBullet(x: string)
    requires CleanItem(x)
    ensures Item("- " + x) == Some(x) && OneLine("- " + x) && !IsHeader("- " + x)
  {
    TrimFixed(x);
    TrimFixed("- " + x);
    assert ("- " + x)[1..] == " " + x;
    assert (" " + x)[1..] == x;
  }

  lemma {:induction false} NoItem()
    ensures Item("") == None && Item("- (none stated)") == None && OneLine("- (none stated)")
  {
    var x := "(none stated)";
    TrimFixed(x);
    TrimFixed("- (none stated)");
    assert "- (none stated)"[1..] == " " + x;
    assert (" " + x)[1..] == x;
  }

  lemma {:induction false} UnbulletEach(ls: seq<string>, items: seq<string>)
    requires |ls| == |items| && forall k | 0 <= k < |ls| :: Item(ls[k]) == Some(items[k])
    ensures Unbullet(ls) == items
  {
    if ls != [] {
      UnbulletEach(ls[1..], items[1..]);
    }
  }

  lemma {:induction false} UnbulletBlank(ls: seq<string>)
    ensures Unbullet([""] + ls) == Unbullet(ls)
  {
    NoItem();
    assert ([""] + ls)[1..] == ls;
  }

  lemma {:induction false} ListSection(items: seq<string>)
    requires CleanList(items)
    ensures !HasHeader(DocLines(Bullets(items))) && Unbullet([""] + DocLines(Bullets(items))) == items
  {
    var ls := Bullets(items);
    NoItem();
    forall k | 0 <= k < |items| ensures ls[k] == "- " + items[k] && Item(ls[k]) == Some(items[k]) && OneLine(ls[k]) {
      ItemOfBullet(items[k]);
    }
    OneLineBlocks(ls);
    NoHeaders(ls);
    UnbulletBlank(ls);
    if items == [] {
      assert ls[1..] == [];
    } else {
      UnbulletEach(ls, items);
    }
  }

  // ---- Text sections ----

  lemma {:induction false} IdSection(id: string)
    ensures DocLines([id]) == LinesOf(id)
    ensures Body([""] + DocLines([id])) == Trim(Join(LinesOf(id)))
  {
    assert [id][1..] == [];
    BodyOfBlock(LinesOf(id));
  }

  lemma {:induction false} GoalSection(goal: string)
    ensures DocLines([goal, ""]) == LinesOf(goal) + [""]
    ensures Body([""] + DocLines([goal, ""])) == Trim(Join(LinesOf(goal)))
  {
    assert [goal, ""][1..] == [""];
    IdSection("");
    OneLineStays("");
    BodyOfBlock(LinesOf(goal));
    assert [""] + (LinesOf(goal) + [""]) == [""] + LinesOf(goal) + [""];
  }

  lemma {:induction false} BlankAfter(ls: seq<string>)
    ensures HasHeader(ls + [""]) <==> HasHeader(ls)
  {
    PlainWeightConcat(ls, [""]);
    assert [""][1..] == [];
  }

  // ---- Everything renderable survives ----

  predicate ListsClean(c: Contract) {
    && CleanList(c.acceptanceCriteria) && CleanList(c.interfaces) && CleanList(c.constraints)
    && CleanList(c.dependsOn) && CleanList(c.verification) && CleanList(c.manualVerification)
  }

  function ListOf(c: Contract, k: nat): seq<string>
    requires 2 <= k < 8
  {
    if k == 2 then c.acceptanceCriteria else if k == 3 then c.interfaces else if k == 4 then c.constraints
    else if k == 5 then c.dependsOn else if k == 6 then c.verification else c.manualVerification
  }

  lemma {:induction false} ListBodies(c: Contract, k: nat)
    requires 2 <= k < 8
    ensures Sections(c)[k].body == Bullets(ListOf(c, k))
  {
    hide Bullets, Trim;
  }

  lemma {:induction false} ListIsFree(c: Contract, k: nat)
    requires ListsClean(c) && 2 <= k < 8
    ensures BodyFree(Sections(c)[k])
    ensures Unbullet([""] + DocLines(Sections(c)[k].body)) == ListOf(c, k)
  {
    ListBodies(c, k);
    ListSection(ListOf(c, k));
  }

  lemma {:induction false} ListsAreFree(c: Contract)
    requires ListsClean(c)
    ensures forall k | 2 <= k < 8 :: BodyFree(Sections(c)[k])
    ensures forall k | 2 <= k < 8 :: Unbullet([""] + DocLines(Sections(c)[k].body)) == ListOf(c, k)
  {
    forall k | 2 <= k < 8
      ensures BodyFree(Sections(c)[k]) && Unbullet([""] + DocLines(Sections(c)[k].body)) == ListOf(c, k)
    {
      ListIsFree(c, k);
    }
  }

  lemma {:induction false} FieldLines(c: Contract, i: nat)
    requires i < 8 && forall k | 0 <= k < 8 :: BodyFree(Sections(c)[k])
    ensures Collect(AllLines(Sections(c)), None, KEYS[i]) == [""] + DocLines(Sections(c)[i].body)
  {
    TitleKeys(c);
    AllPicked(Sections(c), None, KEYS[i]);
    forall k | 0 <= k < 8 && k != i ensures Key(Sections(c)[k].title) != KEYS[i] {
      KeysDiffer(i, k);
    }
    PickedOne(Sections(c), i, KEYS[i]);
  }

  /** The lines the parser files under the `i`-th key. */
  function Read(c: Contract, nid: string, depth: nat, parent: Option<string>, i: nat): seq<string>
    requires i < 8
  {
    Collect(Lines(Render(c, nid, depth, parent)), None, KEYS[i])
  }

  lemma {:induction false} ParsedFields(c: Contract, nid: string, depth: nat, parent: Option<string>)
    ensures Parse(Render(c, nid, depth, parent)) == Contract(
      Body(Read(c, nid, depth, parent, 1)), Unbullet(Read(c, nid, depth, parent, 2)),
      Unbullet(Read(c, nid, depth, parent, 3)), Unbullet(Read(c, nid, depth, parent, 4)),
      Body(Read(c, nid, depth, parent, 0)), Unbullet(Read(c, nid, depth, parent, 5)),
      Unbullet(Read(c, nid, depth, parent, 6)), Unbullet(Read(c, nid, depth, parent, 7)), 0)
  {
  }

  lemma {:induction false} RenderableSurvives(c: Contract, nid: string, depth: nat, parent: Option<string>)
    requires NodeNames(nid, parent) && Renderable(c)
    ensures Parse(Render(c, nid, depth, parent)) == c.(allocation := 0)
  {
    ListsAreFree(c);
    IdSection(c.id);
    GoalSection(c.goal);
    BlankAfter(LinesOf(c.goal));
    PlainLinesJoin(c.id);
    PlainLinesJoin(c.goal);
    hide LinesOf, DocLines;
    assert BodyFree(Sections(c)[0]) && BodyFree(Sections(c)[1]);
    forall i | 0 <= i < 8 ensures Read(c, nid, depth, parent, i) == [""] + DocLines(Sections(c)[i].body) {
      SeenLines(c, nid, depth, parent, KEYS[i]);
      FieldLines(c, i);
    }
    ParsedFields(c, nid, depth, parent);
  }

  // ---- Nothing else does ----

  predicate NoNewlines(ls: seq<string>) { forall k | 0 <= k < |ls| :: '\n' !in ls[k] }

  lemma {:induction false} LinesHaveNone(s: string)
    ensures NoNewlines(Lines(s))
    decreases |s|
  {
    if s != "" && Newline(s) < |s| { LinesHaveNone(s[Newline(s) + 1..]); }
  }

  lemma {:induction false} CollectKeepsNone(ls: seq<string>, current: Option<string>, key: string)
    requires NoNewlines(ls)
    ensures NoNewlines(Collect(ls, current, key))
  {
    if ls != [] {
      CollectKeepsNone(ls[1..], if IsHeader(ls[0]) then Some(HeaderKey(ls[0])) else current, key);
    }
  }

  lemma {:induction false} TrimStartKeeps(s: string, c: char)
    requires c !in s
    ensures c !in TrimStart(s)
  {
    if s != "" && IsWhite(s[0]) { TrimStartKeeps(s[1..], c); }
  }

  lemma {:induction false} TrimEndKeeps(s: string, c: char)
    requires c !in s
    ensures c !in TrimEnd(s)
  {
    if s != "" && IsWhite(s[|s| - 1]) { TrimEndKeeps(s[..|s| - 1], c); }
  }

  lemma {:induction false} ItemsAreClean(ls: seq<string>)
    requires NoNewlines(ls)
    ensures CleanList(Unbullet(ls))
  {
    if ls != [] {
      ItemsAreClean(ls[1..]);
      var l := Trim(ls[0]);
      TrimStartKeeps(ls[0], '\n');
      TrimEndKeeps(TrimStart(ls[0]), '\n');
      if l != "" {
        TrimStartKeeps(l[1..], '\n');
        TrimEndKeeps(TrimStart(l[1..]), '\n');
        TrimIdempotent(l[1..]);
      }
    }
  }

  lemma {:induction false} SectionIsClean(text: string, key: string)
    ensures CleanList(Unbullet(Collect(Lines(text), None, key)))
    ensures Trim(Body(Collect(Lines(text), None, key))) == Body(Collect(Lines(text), None, key))
  {
    LinesHaveNone(text);
    CollectKeepsNone(Lines(text), None, key);
    ItemsAreClean(Collect(Lines(text), None, key));
    TrimIdempotent(Join(Collect(Lines(text), None, key)));
  }

  /** Whatever the text, what parsing returns has clean lists and trimmed texts. */
  lemma {:induction false} ParsedIsClean(text: string)
    ensures ListsClean(Parse(text)) && Parse(text).allocation == 0
    ensures Trim(Parse(text).id) == Parse(text).id && Trim(Parse(text).goal) == Parse(text).goal
  {
    SectionIsClean(text, "id");
    SectionIsClean(text, "goal");
    SectionIsClean(text, "acceptance criteria");
    SectionIsClean(text, "interfaces");
    SectionIsClean(text, "inherited constraints");
    SectionIsClean(text, "depends_on");
    SectionIsClean(text, "verification");
    SectionIsClean(text, "manual verification");
  }

  function IdLines(id: string): seq<string> { ["## id"] + ([""] + LinesOf(id)) }

  function GoalLines(goal: string): seq<string> { ["## Goal"] + ([""] + (LinesOf(goal) + [""])) }

  /** The lines of the two text sections. */
  function TextLines(c: Contract): seq<string> { IdLines(c.id) + GoalLines(c.goal) }

  lemma {:induction false} TextLinesAre(id: string, goal: string, secs: seq<Section>)
    requires secs == [Section("id", [id]), Section("Goal", [goal, ""])]
    ensures AllLines(secs) == IdLines(id) + GoalLines(goal)
  {
    hide LinesOf, Trim, Join;
    IdSection(id);
    GoalSection(goal);
    assert "## " + "id" == "## id" && "## " + "Goal" == "## Goal";
    assert ["## id", ""] + LinesOf(id) == IdLines(id);
    assert ["## Goal", ""] + (LinesOf(goal) + [""]) == GoalLines(goal);
    assert AllLines(secs[1..]) == SectionLines(secs[1]) by {
      assert secs[1..][1..] == [];
    }
    assert SectionLines(secs[0]) == IdLines(id) && SectionLines(secs[1]) == GoalLines(goal);
  }

  lemma {:induction false} AllLinesConcat(a: seq<Section>, b: seq<Section>)
    ensures AllLines(a + b) == AllLines(a) + AllLines(b)
  {
    if a == [] {
      assert a + b == b;
    } else {
      assert (a + b)[1..] == a[1..] + b;
      AllLinesConcat(a[1..], b);
    }
  }

  /** The list sections give nothing to the two text keys. */
  lemma {:induction false} ListsGiveNoText(c: Contract, current: Option<string>, i: nat)
    requires ListsClean(c) && i < 2
    ensures Collect(AllLines(ListSections(c)), current, KEYS[i]) == []
  {
    var s := ListSections(c);
    ListsAreFree(c);
    TitleKeys(c);
    forall k | 0 <= k < 6 ensures BodyFree(s[k]) && Key(s[k].title) != KEYS[i] {
      assert s[k] == Sections(c)[k + 2];
      KeysDiffer(i, k + 2);
    }
    AllPicked(s, current, KEYS[i]);
    PickedNone(s, KEYS[i]);
  }

  lemma {:induction false} TextFields(c: Contract, nid: string, depth: nat, parent: Option<string>, i: nat)
    requires NodeNames(nid, parent) && ListsClean(c) && i < 2 && Trim(c.goal) == c.goal
    ensures Read(c, nid, depth, parent, i) == Collect(TextLines(c), None, KEYS[i])
  {
    var texts := [Section("id", [c.id]), Section("Goal", [c.goal, ""])];
    SeenLines(c, nid, depth, parent, KEYS[i]);
    AllLinesConcat(texts, ListSections(c));
    TextLinesAre(c.id, c.goal, texts);
    CollectConcat(TextLines(c), AllLines(ListSections(c)), None, KEYS[i]);
    ListsGiveNoText(c, CurrentAfter(TextLines(c), None), i);
  }

  lemma {:induction false} IdWeight(id: string)
    ensures PlainWeight(IdLines(id)) == PlainWeight(LinesOf(id)) + 1
    ensures Collect(IdLines(id), None, KEYS[0]) != []
  {
    TitleKey(0);
    HeaderLine("id", [""] + LinesOf(id));
    PlainWeightConcat([""], LinesOf(id));
    assert [""][1..] == [];
    HeaderCollect("id", [""] + LinesOf(id), None);
  }

  lemma {:induction false} GoalWeight(goal: string, current: Option<string>)
    ensures PlainWeight(GoalLines(goal)) == PlainWeight(LinesOf(goal)) + 2
    ensures Collect(GoalLines(goal), current, KEYS[1]) != []
  {
    hide LinesOf;
    var rest := [""] + (LinesOf(goal) + [""]);
    TitleKey(1);
    HeaderLine("Goal", rest);
    PlainWeightConcat([""], LinesOf(goal) + [""]);
    PlainWeightConcat(LinesOf(goal), [""]);
    assert [""][1..] == [];
    HeaderCollect("Goal", rest, current);
  }

  lemma {:induction false} TextWeight(c: Contract)
    ensures PlainWeight(TextLines(c)) == PlainWeight(LinesOf(c.id)) + PlainWeight(LinesOf(c.goal)) + 3
    ensures Collect(TextLines(c), None, KEYS[0]) != [] && Collect(TextLines(c), None, KEYS[1]) != []
  {
    IdWeight(c.id);
    GoalWeight(c.goal, CurrentAfter(IdLines(c.id), None));
    PlainWeightConcat(IdLines(c.id), GoalLines(c.goal));
    CollectConcat(IdLines(c.id), GoalLines(c.goal), None, KEYS[0]);
    CollectConcat(IdLines(c.id), GoalLines(c.goal), None, KEYS[1]);
  }

  lemma {:induction false} HeaderLine(title: string, rest: seq<string>)
    ensures PlainWeight(["## " + title] + rest) == PlainWeight(rest)
  {
    assert (["## " + title] + rest)[1..] == rest;
  }

  lemma {:induction false} HeaderCollect(title: string, rest: seq<string>, current: Option<string>)
    requires rest != [] && rest[0] == ""
    ensures Collect(["## " + title] + rest, current, Key(title)) != []
  {
    var ls := ["## " + title] + rest;
    assert ls[1..] == rest;
    assert ls[0][3..] == title;
  }

  lemma {:induction false} BodyWeight(ls: seq<string>)
    requires ls != []
    ensures |Body(ls)| + 1 <= Weight(ls)
  {
    JoinWeight(ls);
  }

  /** A header inside a text costs more than the section's blank lines give back. */
  lemma {:induction false} SurvivorsHaveNoHeaders(c: Contract)
    requires Trim(c.goal) == c.goal
    requires |c.id| == |Body(Collect(TextLines(c), None, KEYS[0]))|
    requires |c.goal| == |Body(Collect(TextLines(c), None, KEYS[1]))|
    ensures !HasHeader(LinesOf(c.id)) && !HasHeader(LinesOf(c.goal))
  {
    TextWeight(c);
    KeysDiffer(0, 1);
    SectionsAreDisjoint(TextLines(c), None, KEYS[0], KEYS[1]);
    BodyWeight(Collect(TextLines(c), None, KEYS[0]));
    BodyWeight(Collect(TextLines(c), None, KEYS[1]));
    HeaderCosts(LinesOf(c.id));
    HeaderCosts(LinesOf(c.goal));
    LinesWeight(c.id);
    LinesWeight(c.goal);
  }

  lemma {:induction false} UnstrippedIsPlain(s: string)
    requires !HasHeader(LinesOf(s)) && |s| <= |Join(LinesOf(s))|
    ensures PlainLines(s)
  {
    LinesWeight(s);
    JoinWeight(LinesOf(s));
  }

  lemma {:induction false} SurvivorIsRenderable(c: Contract, nid: string, depth: nat, parent: Option<string>)
    requires NodeNames(nid, parent) && Parse(Render(c, nid, depth, parent)) == c.(allocation := 0)
    ensures Renderable(c)
  {
    ParsedFields(c, nid, depth, parent);
    ParsedIsClean(Render(c, nid, depth, parent));
    TextFields(c, nid, depth, parent, 0);
    TextFields(c, nid, depth, parent, 1);
    SurvivorsHaveNoHeaders(c);
    ListsAreFree(c);
    IdSection(c.id);
    GoalSection(c.goal);
    BlankAfter(LinesOf(c.goal));
    assert BodyFree(Sections(c)[0]) && BodyFree(Sections(c)[1]);
    SeenLines(c, nid, depth, parent, KEYS[0]);
    SeenLines(c, nid, depth, parent, KEYS[1]);
    FieldLines(c, 0);
    FieldLines(c, 1);
    UnstrippedIsPlain(c.id);
    UnstrippedIsPlain(c.goal);
  }

  /** The main result: exactly the renderable contracts survive being written and read back,
      all but their allocation, which the file does not hold. */
  lemma {:induction false} RoundTrip(c: Contract, nid: string, depth: nat, parent: Option<string>)
    requires NodeNames(nid, parent)
    ensures Parse(Render(c, nid, depth, parent)) == c.(allocation := 0) <==> Renderable(c)
  {
    if Renderable(c) {
      RenderableSurvives(c, nid, depth, parent);
    } else if Parse(Render(c, nid, depth, parent)) == c.(allocation := 0) {
      SurvivorIsRenderable(c, nid, depth, parent);
    }
  }

  datatype List = AcceptanceCriteria | Interfaces | Constraints | DependsOn | Verification | ManualVerification

  /** The contract with one of its lists replaced. */
  function WithList(c: Contract, which: List, items: seq<string>): Contract {
    match which
    case AcceptanceCriteria => c.(acceptanceCriteria := items)
    case Interfaces => c.(interfaces := items)
    case Constraints => c.(constraints := items)
    case DependsOn => c.(dependsOn := items)
    case Verification => c.(verification := items)
    case ManualVerification => c.(manualVerification := items)
  }

  /** A steering edit of any file: read it, replace one list, write it back. Whoever reads next sees that list
      replaced and every other field as it was read, if and only if the new items are clean and neither text
      holds a header line or a stray carriage return. */
  lemma {:induction false} EditKeepsTheRest(
    text: string, which: List, items: seq<string>, nid: string, depth: nat, parent: Option<string>)
    requires NodeNames(nid, parent)
    ensures var c, edited := Parse(text), WithList(Parse(text), which, items);
            Parse(Render(edited, nid, depth, parent)) == edited
            <==> CleanList(items) && PlainLines(c.id) && PlainLines(c.goal)
  {
    hide Parse, Render;
    ParsedIsClean(text);
    RoundTrip(WithList(Parse(text), which, items), nid, depth, parent);
  }

  /** Reading any file and writing it back settles it: what is read a second time is what was read
      the first time, unless a text of it holds a header line or a stray carriage return. */
  lemma {:induction false} RewriteIsStable(text: string, nid: string, depth: nat, parent: Option<string>)
    requires NodeNames(nid, parent)
    ensures var c := Parse(text);
            Parse(Render(c, nid, depth, parent)) == c <==> PlainLines(c.id) && PlainLines(c.goal)
  {
    ParsedIsClean(text);
    RoundTrip(Parse(text), nid, depth, parent);
  }

  /** A goal whose second line looks like a section header. */
  const HEADED := Contract("a\n## b", [], [], [], "", [], [], [], 0)

  lemma {:induction false} HeadedIsNotPlain()
    ensures Trim(HEADED.goal) == HEADED.goal && !PlainLines(HEADED.goal)
  {
    var s := HEADED.goal;
    TrimFixed(s);
    assert s[0] == 'a' && s[1] == '\n';
    assert s[1..][0] == '\n';
    assert Newline(s) == 1;
    var rest := s[2..];
    assert rest == "## b";
    assert rest[0] == '#' && rest[1] == '#' && rest[2] == ' ' && rest[3] == 'b' && |rest| == 4;
    assert Newline(rest) == 4;
    assert rest[..4] == rest;
  }

  /** A contract that is lost: it is read back otherwise than it was written. */
  lemma {:induction false} HeadedGoalIsLost()
    ensures Parse(Render(HEADED, "root", 1, None)) != HEADED
  {
    HeadedIsNotPlain();
    RoundTrip(HEADED, "root", 1, None);
  }
}
