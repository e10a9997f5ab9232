/** The harness's own sentences (src/git.rs), and that they fit the bytes reserved for them. */
module EvidenceWording {
  import opened Text
  import opened Evidence

  // The fixed parts, in short pieces.
  function HeaderHead(): string { "\n--- new file: " }
  function HeaderTail(): string { " chars) ---\n" }
  function MarkerHead(): string { ": preview cut by the harness at " }
  function MarkerTail(): string { " chars]\n" }
  function NoticeHead1(): string { "... [evidence truncated " }
  function NoticeHead2(): string { "by the harness: showing " }
  function NoticeTail1(): string { " bytes. The remainder was omitted" }
  function NoticeTail2(): string { " for length, NOT by the node; " }
  function NoticeTail3(): string { "judge the evidence present and " }
  function NoticeTail4(): string { "do not FAIL a deliverable merely" }
  function NoticeTail5(): string { " because this preview ended.]" }

  function NoticeTail(): string {
    NoticeTail1() + (NoticeTail2() + (NoticeTail3() + (NoticeTail4() + NoticeTail5())))
  }

  function HeaderText(name: string, total: nat): string {
    HeaderHead() + (name + (" (" + (Decimal(total) + HeaderTail())))
  }

  function MarkerText(name: string, window: nat, total: nat): string {
    "... [" + (name + (MarkerHead() + (Decimal(window) + (" of " + (Decimal(total) + MarkerTail())))))
  }

  function NoticeText(shown: nat, whole: nat): string {
    NoticeHead1() + (NoticeHead2() + (Decimal(shown) + (" of " + (Decimal(whole) + NoticeTail()))))
  }

  const SOURCE := Wording(
    (name: string, total: nat) => HeaderText(name, total),
    (name: string, window: nat, total: nat) => MarkerText(name, window, total),
    (shown: nat, whole: nat) => NoticeText(shown, whole))

  /** The three texts, written out. */
  lemma {:induction false} TextsRead(name: string, a: nat, b: nat)
    ensures SOURCE.header(name, a) == "\n--- new file: " + name + " (" + Decimal(a) + " chars) ---\n"
    ensures SOURCE.marker(name, a, b) ==
      "... [" + name + ": preview cut by the harness at " + Decimal(a) + " of " + Decimal(b) + " chars]\n"
    ensures SOURCE.notice(a, b) ==
      "... [evidence truncated " + "by the harness: showing " + Decimal(a) + " of " + Decimal(b)
      + " bytes. The remainder was omitted" + " for length, NOT by the node; " + "judge the evidence present and "
      + "do not FAIL a deliverable merely" + " because this preview ended.]"
  {
    Regroup5("\n--- new file: ", name, " (", Decimal(a), " chars) ---\n");
    var rest := Decimal(a) + (" of " + (Decimal(b) + " chars]\n"));
    Regroup5(": preview cut by the harness at ", Decimal(a), " of ", Decimal(b), " chars]\n");
    Regroup3("... [", name, ": preview cut by the harness at " + rest);
    MarkerReads(name, a, b);
    NoticeReads(a, b);
  }

  lemma {:induction false} Regroup3(a: string, b: string, c: string)
    ensures a + (b + c) == a + b + c
  {
  }

  lemma {:induction false} Regroup5(a: string, b: string, c: string, d: string, e: string)
    ensures a + (b + (c + (d + e))) == a + b + c + d + e
  {
    Regroup3(c, d, e);
    Regroup3(b, c + d, e);
    Regroup3(b, c, d);
    Regroup3(a, b + c + d, e);
    Regroup3(a, b + c, d);
    Regroup3(a, b, c);
  }

  lemma {:induction false} MarkerReads(name: string, a: nat, b: nat)
    ensures MarkerText(name, a, b) ==
      "... [" + name + ": preview cut by the harness at " + Decimal(a) + " of " + Decimal(b) + " chars]\n"
  {
    var head, tail := ": preview cut by the harness at ", " chars]\n";
    Regroup5(head, Decimal(a), " of ", Decimal(b), tail);
    Regroup3("... [", name, head + Decimal(a) + " of " + Decimal(b) + tail);
    Regroup5("... [" + name, head, Decimal(a), " of ", Decimal(b) + tail);
    Regroup3("... [" + name + head + Decimal(a) + " of ", Decimal(b), tail);
  }

  lemma {:induction false} NoticeReads(a: nat, b: nat)
    ensures NoticeText(a, b) ==
      "... [evidence truncated " + "by the harness: showing " + Decimal(a) + " of " + Decimal(b)
      + " bytes. The remainder was omitted" + " for length, NOT by the node; " + "judge the evidence present and "
      + "do not FAIL a deliverable merely" + " because this preview ended.]"
  {
    hide Decimal, NoticeTail;
    Regroup5(NoticeHead1(), NoticeHead2(), Decimal(a), " of ", Decimal(b) + NoticeTail());
    var front := NoticeHead1() + NoticeHead2() + Decimal(a) + " of ";
    Regroup3(front, Decimal(b), NoticeTail());
    TailReads(front + Decimal(b));
  }

  lemma {:induction false} TailReads(front: string)
    ensures front + NoticeTail() ==
      front + NoticeTail1() + NoticeTail2() + NoticeTail3() + NoticeTail4() + NoticeTail5()
  {
    hide NoticeTail1, NoticeTail2, NoticeTail3, NoticeTail4, NoticeTail5;
    Regroup5(NoticeTail1(), NoticeTail2(), NoticeTail3(), NoticeTail4(), NoticeTail5());
    Regroup5(front + NoticeTail1(), NoticeTail2(), NoticeTail3(), NoticeTail4(), NoticeTail5());
    Regroup3(front, NoticeTail1(), NoticeTail2() + (NoticeTail3() + (NoticeTail4() + NoticeTail5())));
  }

  lemma {:induction false} OfLength(s: string, n: nat)
    requires |s| == n && SingleByte(s)
    ensures Bytes(s) == n
  {
    SingleByteLength(s);
  }

  lemma {:induction false} Head1Bytes() ensures Bytes(NoticeHead1()) == 24 { OfLength(NoticeHead1(), 24); }

  lemma {:induction false} Head2Bytes() ensures Bytes(NoticeHead2()) == 24 { OfLength(NoticeHead2(), 24); }

  lemma {:induction false} Tail1Bytes() ensures Bytes(NoticeTail1()) == 33 { OfLength(NoticeTail1(), 33); }

  lemma {:induction false} Tail2Bytes() ensures Bytes(NoticeTail2()) == 30 { OfLength(NoticeTail2(), 30); }

  lemma {:induction false} Tail3Bytes() ensures Bytes(NoticeTail3()) == 31 { OfLength(NoticeTail3(), 31); }

  lemma {:induction false} Tail4Bytes() ensures Bytes(NoticeTail4()) == 32 { OfLength(NoticeTail4(), 32); }

  lemma {:induction false} Tail5Bytes() ensures Bytes(NoticeTail5()) == 29 { OfLength(NoticeTail5(), 29); }

  lemma {:induction false} FiveBytes(a: string, b: string, c: string, d: string, e: string)
    ensures Bytes(a + (b + (c + (d + e)))) == Bytes(a) + Bytes(b) + Bytes(c) + Bytes(d) + Bytes(e)
  {
    BytesConcat(d, e);
    BytesConcat(c, d + e);
    BytesConcat(b, c + (d + e));
    BytesConcat(a, b + (c + (d + e)));
  }

  lemma {:induction false} TailBytes()
    ensures Bytes(NoticeTail()) == 155
  {
    Tail1Bytes();
    Tail2Bytes();
    Tail3Bytes();
    Tail4Bytes();
    Tail5Bytes();
    FiveBytes(NoticeTail1(), NoticeTail2(), NoticeTail3(), NoticeTail4(), NoticeTail5());
  }

  lemma {:induction false} MarkerHeadBytes() ensures Bytes(MarkerHead()) == 32 { OfLength(MarkerHead(), 32); }

  lemma {:induction false} MarkerTailBytes() ensures Bytes(MarkerTail()) == 8 { OfLength(MarkerTail(), 8); }

  lemma {:induction false} DotsBytes() ensures Bytes("... [") == 5 { OfLength("... [", 5); }

  lemma {:induction false} OfBytes() ensures Bytes(" of ") == 4 { OfLength(" of ", 4); }

  lemma {:induction false} NumberBytes(n: nat)
    ensures Bytes(Decimal(n)) == |Decimal(n)|
  {
    SingleByteLength(Decimal(n));
  }

  // ---- Digits ----

  function Ten(k: nat): nat { if k == 0 then 1 else 10 * Ten(k - 1) }

  lemma {:induction false} Digits(n: nat, k: nat)
    requires n < Ten(k) && k >= 1
    ensures |Decimal(n)| <= k
  {
    if n >= 10 && k > 1 { Digits(n / 10, k - 1); }
  }

  lemma {:induction false} DigitsGrow(a: nat, b: nat)
    requires a <= b
    ensures |Decimal(a)| <= |Decimal(b)|
  {
    if b >= 10 && a >= 10 { DigitsGrow(a / 10, b / 10); }
  }

  lemma {:induction false} UsizeDigits(n: nat)
    requires n < USIZE_LIMIT
    ensures |Decimal(n)| <= 20
  {
    assert Ten(5) == 100000;
    assert Ten(10) == 100000 * Ten(5);
    assert Ten(15) == 100000 * Ten(10);
    assert Ten(20) == 100000 * Ten(15);
    Digits(n, 20);
  }

  // ---- The reserves ----

  lemma {:induction false} NoticeBytes(shown: nat, whole: nat)
    ensures Bytes(NoticeText(shown, whole)) == 207 + |Decimal(shown)| + |Decimal(whole)|
  {
    Head1Bytes();
    Head2Bytes();
    TailBytes();
    OfBytes();
    NumberBytes(shown);
    NumberBytes(whole);
    FiveBytes(NoticeHead2(), Decimal(shown), " of ", Decimal(whole), NoticeTail());
    BytesConcat(NoticeHead1(), NoticeHead2() + (Decimal(shown) + (" of " + (Decimal(whole) + NoticeTail()))));
  }

  /** The closing notice always fits its 300 bytes, newline included. */
  lemma {:induction false} SourceNoticeFits()
    ensures NoticeFits(SOURCE)
  {
    forall shown: nat, whole: nat | shown < USIZE_LIMIT && whole < USIZE_LIMIT
      ensures Bytes(SOURCE.notice(shown, whole)) + 1 <= GLOBAL_MARKER_RESERVE
    {
      NoticeBytes(shown, whole);
      UsizeDigits(shown);
      UsizeDigits(whole);
    }
  }

  lemma {:induction false} MarkerBytes(name: string, window: nat, total: nat)
    ensures Bytes(MarkerText(name, window, total)) == 49 + Bytes(name) + |Decimal(window)| + |Decimal(total)|
  {
    MarkerHeadBytes();
    MarkerTailBytes();
    DotsBytes();
    OfBytes();
    NumberBytes(window);
    NumberBytes(total);
    FiveBytes(MarkerHead(), Decimal(window), " of ", Decimal(total), MarkerTail());
    BytesConcat(name, MarkerHead() + (Decimal(window) + (" of " + (Decimal(total) + MarkerTail()))));
    BytesConcat("... [", name + (MarkerHead() + (Decimal(window) + (" of " + (Decimal(total) + MarkerTail())))));
  }

  /** A file's cut marker fits its 120 bytes when its name leaves room for two numbers. */
  lemma {:induction false} SourceMarkerFits(f: File)
    requires Bytes(f.name) + 2 * |Decimal(|f.content|)| <= 71
    ensures MarkerFits(SOURCE, f)
  {
    forall window: nat | window < |f.content|
      ensures Bytes(SOURCE.marker(f.name, window, |f.content|)) <= FILE_MARKER_RESERVE
    {
      MarkerBytes(f.name, window, |f.content|);
      DigitsGrow(window, |f.content|);
    }
  }

  /** Exactly when the limit holds for the harness's own notice. */
  lemma {:induction false} SourceLimitHolds(diff: string, files: seq<File>, note: string, max: nat, whole: nat)
    requires whole == Bytes(Whole(SOURCE, diff, files, note)) && whole > max
    ensures var cut := Bytes(Cut(SOURCE, diff, files, note, max));
            Bytes(Summary(SOURCE, diff, files, note, max)) <= max <==>
            cut + 208 + |Decimal(cut)| + |Decimal(whole)| <= max
  {
    forall shown: nat ensures Bytes(SOURCE.notice(shown, whole)) >= 4 {
      NoticeBytes(shown, whole);
    }
    LimitHolds(SOURCE, diff, files, note, max, whole);
    NoticeBytes(Bytes(Cut(SOURCE, diff, files, note, max)), whole);
  }

  /** The evidence bound for the harness's own texts: single-byte files with short enough names, and
      a budget that holds the fixed text and the reserves, give a summary within the budget that
      shows every hand-written file through its own window. */
  lemma {:induction false} SourceSummaryIsWithin(diff: string, files: seq<File>, note: string, max: nat, whole: nat)
    requires whole == Bytes(Whole(SOURCE, diff, files, note)) && max < whole < USIZE_LIMIT
    requires forall k | 0 <= k < |files| ::
      SingleByte(files[k].content) && Bytes(files[k].name) + 2 * |Decimal(|files[k].content|)| <= 71
    requires ReservesFit(|files|, Fixed(SOURCE, diff, files, note), max)
    ensures Bytes(Summary(SOURCE, diff, files, note, max)) <= max
    ensures forall k | 0 <= k < |files| ::
      Contains(Summary(SOURCE, diff, files, note, max),
               Windowed(SOURCE, files[k], Share(SOURCE, diff, files, note, max)))
  {
    SourceNoticeFits();
    forall k | 0 <= k < |files| ensures FileFits(SOURCE, files[k]) {
      SourceMarkerFits(files[k]);
    }
    WindowsAreNotCut(SOURCE, diff, files, note, max, whole);
    forall k | 0 <= k < |files|
      ensures Contains(Summary(SOURCE, diff, files, note, max),
                       Windowed(SOURCE, files[k], Share(SOURCE, diff, files, note, max)))
    {
      EveryFileIsShown(SOURCE, diff, files, note, max, whole, k);
    }
  }

  /** A tracked diff that alone exceeds the limit always breaks it. */
  lemma {:induction false} LongDiffBreaksLimit(diff: string, files: seq<File>, note: string, max: nat)
    requires Bytes(Tracked(diff)) > max
    ensures Bytes(Summary(SOURCE, diff, files, note, max)) > max
  {
    var whole, share := Whole(SOURCE, diff, files, note), Share(SOURCE, diff, files, note, max);
    StartBytes(Tracked(diff), Previews(SOURCE, files, |files|), note);
    StartBytes(Tracked(diff), Windows(SOURCE, files, share, |files|), note);
    SourceLimitHolds(diff, files, note, max, Bytes(whole));
  }

  lemma {:induction false} StartBytes(a: string, b: string, c: string)
    ensures Bytes(a + b + c) >= Bytes(a)
  {
    BytesConcat(a, b);
    BytesConcat(a + b, c);
  }

  /** The smallest one: a diff of one character under a limit of one byte gives a summary over the limit. */
  lemma {:induction false} OneCharacterBreaksLimit()
    ensures Bytes(Summary(SOURCE, "d", [], "", 1)) > 1
  {
    TrimFixed("d");
    OfLength("d\n", 2);
    assert Tracked("d") == "d\n";
    LongDiffBreaksLimit("d", [], "", 1);
  }
}
