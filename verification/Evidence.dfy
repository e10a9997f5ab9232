/** The critic's evidence window over the working tree (src/git.rs `worktree_change_summary`). */
module Evidence {
  import opened Text

  // ---- Byte lengths ----

  /** Bytes of a character in UTF-8. */
  function Width(c: char): (w: nat)
    ensures 1 <= w <= 4
  {
    var n := c as int;
    if n < 0x80 then 1 else if n < 0x800 then 2 else if n < 0x10000 then 3 else 4
  }

  ghost function Power(n: nat): nat { if n == 0 then 1 else 2 * Power(n - 1) }

  lemma {:induction false} Powers()
    ensures Power(7) == 0x80 && Power(11) == 0x800 && Power(16) == 0x10000 && Power(21) == 0x20_0000
  {
    assert Power(4) == 16;
    assert Power(8) == 256;
    assert Power(12) == 4096;
    assert Power(16) == 0x10000;
    assert Power(20) == 0x10_0000;
  }

  /** UTF-8 is the shortest form: a character takes at most `w` bytes exactly when its code fits into the bits
      that `w` bytes carry, 7 in one byte and 5w + 1 in more (section 3 of RFC 3629). */
  lemma {:induction false} WidthMeans(c: char, w: nat)
    requires 1 <= w <= 4
    ensures Width(c) <= w <==> (c as int) < Power(if w == 1 then 7 else 5 * w + 1)
  {
    Powers();
  }

  /** `String::len`. */
  function Bytes(s: string): nat {
    if s == "" then 0 else Width(s[0]) + Bytes(s[1..])
  }

  lemma {:induction false} BytesConcat(a: string, b: string)
    ensures Bytes(a + b) == Bytes(a) + Bytes(b)
  {
    if a == "" {
      assert a + b == b;
    } else {
      assert (a + b)[1..] == a[1..] + b;
      BytesConcat(a[1..], b);
    }
  }

  predicate SingleByte(s: string) { forall k | 0 <= k < |s| :: Width(s[k]) == 1 }

  lemma {:induction false} SingleByteLength(s: string)
    requires SingleByte(s)
    ensures Bytes(s) == |s|
  {
    if s != "" { SingleByteLength(s[1..]); }
  }

  // ---- Cutting on a character boundary ----

  /** How many leading characters fit into `max` bytes. */
  function Fitting(s: string, max: nat): (k: nat)
    ensures k <= |s|
  {
    if s == "" || Width(s[0]) > max then 0 else 1 + Fitting(s[1..], max - Width(s[0]))
  }

  /** `is_char_boundary`. */
  predicate Boundary(s: string, cut: nat) { exists k | 0 <= k <= |s| :: Bytes(s[..k]) == cut }

  lemma {:induction false} PrefixBytes(s: string, k: nat)
    requires 0 < k <= |s|
    ensures Bytes(s[..k]) == Width(s[0]) + Bytes(s[1..][..k - 1])
  {
    assert s[..k][1..] == s[1..][..k - 1];
  }

  /** The characters that fit are the longest prefix of at most `max` bytes. */
  lemma {:induction false} FittingIsLongest(s: string, max: nat, k: nat)
    requires k <= |s|
    ensures Bytes(s[..k]) <= max <==> k <= Fitting(s, max)
  {
    if k > 0 {
      PrefixBytes(s, k);
      if Width(s[0]) <= max { FittingIsLongest(s[1..], max - Width(s[0]), k - 1); }
    }
  }

  lemma {:induction false} PrefixesGrow(s: string, j: nat, k: nat)
    requires j < k <= |s|
    ensures Bytes(s[..j]) < Bytes(s[..k])
  {
    assert s[..k] == s[..j] + s[j..k];
    BytesConcat(s[..j], s[j..k]);
    assert s[j..k] != "";
  }

  // ---- The harness's own sentences ----

  /** The texts around the evidence: a file's header, the marker under a cut preview and the notice
      that ends a cut summary. The assembly works with any of them; `SOURCE` holds the real ones. */
  datatype Wording = Wording(
    header: (string, nat) -> string,
    marker: (string, nat, nat) -> string,
    notice: (nat, nat) -> string)

  function Noticed(w: Wording, s: string, whole: nat): string { s + ("\n" + w.notice(Bytes(s), whole)) }

  /** The capped summary: the longest prefix that fits, then the notice. */
  function Capped(w: Wording, s: string, max: nat, whole: nat): string { Noticed(w, s[..Fitting(s, max)], whole) }

  /** The cut walks down from `max` to a boundary byte by byte. */
  method CutPoint(out: string, max: nat) returns (cut: nat)
    requires Bytes(out) > max
    ensures cut == Bytes(out[..Fitting(out, max)])
  {
    ghost var fit := Fitting(out, max);
    FittingIsLongest(out, max, fit);
    assert out[..0] == "";
    assert Boundary(out, 0);
    cut := max;
    while cut > 0 && !Boundary(out, cut)
      invariant Bytes(out[..fit]) <= cut <= max
    {
      assert Boundary(out, Bytes(out[..fit]));
      cut := cut - 1;
    }
    ghost var k :| 0 <= k <= |out| && Bytes(out[..k]) == cut;
    FittingIsLongest(out, max, k);
    if k < fit { PrefixesGrow(out, k, fit); }
  }

  /** `&out[..cut]` at a boundary. */
  method TakeBytes(out: string, cut: nat, ghost fit: nat) returns (r: string)
    requires fit <= |out| && cut == Bytes(out[..fit])
    ensures r == out[..fit]
  {
    var i, used := 0, 0;
    while used < cut
      invariant 0 <= i <= fit && used == Bytes(out[..i])
      decreases fit - i
    {
      assert out[..i + 1] == out[..i] + [out[i]];
      BytesConcat(out[..i], [out[i]]);
      assert [out[i]][1..] == "";
      used := used + Width(out[i]);
      i := i + 1;
    }
    if i < fit { PrefixesGrow(out, i, fit); }
    r := out[..i];
  }

  /** `cap_evidence`. */
  method CapEvidence(w: Wording, out: string, max: nat, whole: nat) returns (r: string)
    ensures r == Capped(w, out, max, whole)
  {
    if Bytes(out) <= max {
      assert out[..|out|] == out;
      FittingIsLongest(out, max, |out|);
      return out + ("\n" + w.notice(Bytes(out), whole));
    }
    var cut := CutPoint(out, max);
    var shown := TakeBytes(out, cut, Fitting(out, max));
    r := shown + ("\n" + w.notice(cut, whole));
  }

  // ---- The summary ----

  datatype File = File(name: string, content: string)

  function Header(w: Wording, f: File): string { w.header(f.name, |f.content|) }

  function Preview(w: Wording, f: File): string { Header(w, f) + (f.content + "\n") }

  function Least(a: nat, b: nat): nat { if a <= b then a else b }

  function MarkerOf(w: Wording, f: File, window: nat): string {
    if window < |f.content| then w.marker(f.name, window, |f.content|) else ""
  }

  /** A file shown through a window of `share` characters. */
  function Windowed(w: Wording, f: File, share: nat): string {
    var window := Least(share, |f.content|);
    Header(w, f) + (f.content[..window] + ("\n" + MarkerOf(w, f, window)))
  }

  function Previews(w: Wording, files: seq<File>, n: nat): string
    requires n <= |files|
    decreases n
  {
    if n == 0 then "" else Previews(w, files, n - 1) + Preview(w, files[n - 1])
  }

  function Windows(w: Wording, files: seq<File>, share: nat, n: nat): string
    requires n <= |files|
    decreases n
  {
    if n == 0 then "" else Windows(w, files, share, n - 1) + Windowed(w, files[n - 1], share)
  }

  /** Headers and final newlines. */
  function Frames(w: Wording, files: seq<File>, n: nat): nat
    requires n <= |files|
    decreases n
  {
    if n == 0 then 0 else Frames(w, files, n - 1) + Bytes(Header(w, files[n - 1])) + 1
  }

  function Tracked(diff: string): string { if Trim(diff) == "" then "" else diff + "\n" }

  function Whole(w: Wording, diff: string, files: seq<File>, note: string): string {
    Tracked(diff) + Previews(w, files, |files|) + note
  }

  const FILE_MARKER_RESERVE := 120
  const GLOBAL_MARKER_RESERVE := 300

  function SaturatingSub(a: nat, b: nat): nat { if a <= b then 0 else a - b }

  function Fixed(w: Wording, diff: string, files: seq<File>, note: string): nat {
    Bytes(Tracked(diff)) + Bytes(note) + Frames(w, files, |files|)
  }

  function ShareOf(n: nat, fixed: nat, max: nat): nat {
    if n == 0 then 0
    else SaturatingSub(SaturatingSub(max, fixed), n * FILE_MARKER_RESERVE + GLOBAL_MARKER_RESERVE) / n
  }

  function Share(w: Wording, diff: string, files: seq<File>, note: string, max: nat): nat {
    ShareOf(|files|, Fixed(w, diff, files, note), max)
  }

  function Cut(w: Wording, diff: string, files: seq<File>, note: string, max: nat): string {
    Tracked(diff) + Windows(w, files, Share(w, diff, files, note, max), |files|) + note
  }

  function Summary(w: Wording, diff: string, files: seq<File>, note: string, max: nat): string {
    var whole := Whole(w, diff, files, note);
    if Bytes(whole) <= max then whole else Capped(w, Cut(w, diff, files, note, max), max, Bytes(whole))
  }

  /** The two sizes, summed file by file. */
  method Sizes(w: Wording, diff: string, files: seq<File>, note: string) returns (whole: nat, fixed: nat)
    ensures whole == Bytes(Whole(w, diff, files, note)) && fixed == Fixed(w, diff, files, note)
  {
    whole, fixed := Bytes(Tracked(diff)) + Bytes(note), Bytes(Tracked(diff)) + Bytes(note);
    for i := 0 to |files|
      invariant whole == Bytes(Tracked(diff)) + Bytes(note) + Bytes(Previews(w, files, i))
      invariant fixed == Bytes(Tracked(diff)) + Bytes(note) + Frames(w, files, i)
    {
      whole := whole + Bytes(Preview(w, files[i]));
      fixed := fixed + Bytes(Header(w, files[i])) + 1;
      BytesConcat(Previews(w, files, i), Preview(w, files[i]));
    }
    BytesConcat(Tracked(diff), Previews(w, files, |files|));
    BytesConcat(Tracked(diff) + Previews(w, files, |files|), note);
  }

  /** One file's part of the cut summary, pushed piece by piece. */
  method AppendWindow(w: Wording, buffer: string, f: File, share: nat) returns (out: string)
    ensures out == buffer + Windowed(w, f, share)
  {
    var total := |f.content|;
    var window := Least(share, total);
    out := buffer + w.header(f.name, total);
    out := out + f.content[..window];
    out := out + "\n";
    if window < total {
      out := out + w.marker(f.name, window, total);
    }
  }

  method AppendPreviews(w: Wording, buffer: string, files: seq<File>) returns (out: string)
    ensures out == buffer + Previews(w, files, |files|)
  {
    out := buffer;
    for i := 0 to |files|
      invariant out == buffer + Previews(w, files, i)
    {
      out := out + Preview(w, files[i]);
    }
  }

  method AppendWindows(w: Wording, buffer: string, files: seq<File>, share: nat) returns (out: string)
    ensures out == buffer + Windows(w, files, share, |files|)
  {
    out := buffer;
    for i := 0 to |files|
      invariant out == buffer + Windows(w, files, share, i)
    {
      out := AppendWindow(w, out, files[i], share);
    }
  }

  /** The summary is assembled on one buffer; `diff`, `files` and `note` are what git and the file
      system report. */
  method WorktreeSummary(w: Wording, diff: string, files: seq<File>, note: string, max: nat) returns (out: string)
    ensures out == Summary(w, diff, files, note, max)
  {
    out := "";
    if Trim(diff) != "" {
      out := out + diff;
      out := out + "\n";
    }
    assert out == Tracked(diff);
    var whole, fixed := Sizes(w, diff, files, note);
    if whole <= max {
      out := AppendPreviews(w, out, files);
      out := out + note;
    } else {
      out := AppendWindows(w, out, files, ShareOf(|files|, fixed, max));
      out := out + note;
      out := CapEvidence(w, out, max, whole);
    }
  }

  // ---- What the summary says ----

  /** Texts one after the other. */
  ghost function Joined(parts: seq<string>): string {
    if parts == [] then "" else parts[0] + Joined(parts[1..])
  }

  lemma {:induction false} JoinedSnoc(parts: seq<string>, last: string)
    ensures Joined(parts + [last]) == Joined(parts) + last
  {
    if parts == [] {
      assert (parts + [last])[1..] == [] && last + "" == last;
    } else {
      assert (parts + [last])[1..] == parts[1..] + [last];
      JoinedSnoc(parts[1..], last);
      assert parts[0] + (Joined(parts[1..]) + last) == Joined(parts) + last;
    }
  }

  /** The diff with a newline, unless there is nothing in it. */
  ghost function Opening(diff: string): string { if Trim(diff) != "" then diff + "\n" else "" }

  /** Each file's part of a whole summary: its header, all of it, and a newline. */
  ghost predicate ShownWhole(w: Wording, files: seq<File>, parts: seq<string>) {
    |parts| == |files| && forall k | 0 <= k < |files| ::
      parts[k] == w.header(files[k].name, |files[k].content|) + files[k].content + "\n"
  }

  /** Each file's part of a cut summary: all of a file no longer than `share`, otherwise that much of it and the
      marker. */
  ghost predicate ShownInPart(w: Wording, files: seq<File>, share: nat, parts: seq<string>) {
    |parts| == |files| && forall k | 0 <= k < |files| ::
      var f := files[k];
      parts[k] == w.header(f.name, |f.content|) +
        if |f.content| <= share then f.content + "\n"
        else f.content[..share] + "\n" + w.marker(f.name, share, |f.content|)
  }

  lemma {:induction false} PreviewsJoined(w: Wording, files: seq<File>, parts: seq<string>, n: nat)
    requires ShownWhole(w, files, parts) && n <= |files|
    ensures Previews(w, files, n) == Joined(parts[..n])
  {
    if n > 0 {
      PreviewsJoined(w, files, parts, n - 1);
      assert parts[..n] == parts[..n - 1] + [parts[n - 1]];
      JoinedSnoc(parts[..n - 1], parts[n - 1]);
      var f := files[n - 1];
      assert Header(w, f) + (f.content + "\n") == parts[n - 1];
    }
  }

  lemma {:induction false} WindowsJoined(w: Wording, files: seq<File>, share: nat, parts: seq<string>, n: nat)
    requires ShownInPart(w, files, share, parts) && n <= |files|
    ensures Windows(w, files, share, n) == Joined(parts[..n])
  {
    if n > 0 {
      WindowsJoined(w, files, share, parts, n - 1);
      assert parts[..n] == parts[..n - 1] + [parts[n - 1]];
      JoinedSnoc(parts[..n - 1], parts[n - 1]);
      var f := files[n - 1];
      if |f.content| <= share {
        assert f.content[..|f.content|] == f.content && "\n" + "" == "\n";
      } else {
        assert f.content[..share] + ("\n" + w.marker(f.name, share, |f.content|)) ==
          f.content[..share] + "\n" + w.marker(f.name, share, |f.content|);
      }
    }
  }

  /** What stays whatever is cut: every header and one newline for each file. */
  ghost predicate Framed(w: Wording, files: seq<File>, frames: seq<string>) {
    |frames| == |files| && forall k | 0 <= k < |files| ::
      frames[k] == w.header(files[k].name, |files[k].content|) + "\n"
  }

  lemma {:induction false} FramesJoined(w: Wording, files: seq<File>, frames: seq<string>, n: nat)
    requires Framed(w, files, frames) && n <= |files|
    ensures Frames(w, files, n) == Bytes(Joined(frames[..n]))
  {
    if n > 0 {
      FramesJoined(w, files, frames, n - 1);
      assert frames[..n] == frames[..n - 1] + [frames[n - 1]];
      JoinedSnoc(frames[..n - 1], frames[n - 1]);
      BytesConcat(Joined(frames[..n - 1]), frames[n - 1]);
      BytesConcat(Header(w, files[n - 1]), "\n");
      BlankBytes();
    }
  }

  /** What fits is shown whole: the diff, every file after its header, and the note. */
  lemma {:induction false} WholeReads(
    w: Wording, diff: string, files: seq<File>, note: string, max: nat, parts: seq<string>)
    requires ShownWhole(w, files, parts)
    ensures Whole(w, diff, files, note) == Opening(diff) + Joined(parts) + note
    ensures Bytes(Opening(diff) + Joined(parts) + note) <= max ==>
      Summary(w, diff, files, note, max) == Opening(diff) + Joined(parts) + note
  {
    PreviewsJoined(w, files, parts, |files|);
    assert parts[..|files|] == parts;
  }

  /** The largest share that `n` files can have of what the fixed text and the reserves leave of the limit. */
  ghost predicate IsShare(n: nat, fixed: nat, max: nat, share: nat) {
    var spent := fixed + n * 120 + 300;
    n > 0 ==> if max <= spent then share == 0 else n * share <= max - spent < n * (share + 1)
  }

  lemma {:induction false} ShareMeans(n: nat, fixed: nat, max: nat)
    ensures IsShare(n, fixed, max, ShareOf(n, fixed, max))
  {
    var spent := fixed + n * FILE_MARKER_RESERVE + GLOBAL_MARKER_RESERVE;
    if n > 0 {
      if max <= spent {
        assert 0 / n == 0;
      } else {
        var left := max - spent;
        assert n * (left / n) == left - left % n && n * (left / n + 1) == n * (left / n) + n;
      }
    }
  }

  lemma {:induction false} OneShare(n: nat, fixed: nat, max: nat, a: nat, b: nat)
    requires n > 0 && IsShare(n, fixed, max, a) && IsShare(n, fixed, max, b)
    ensures a == b
  {
    hide IsShare;
    if max > fixed + n * 120 + 300 {
      SharesBelow(n, fixed, max, a, b);
      SharesBelow(n, fixed, max, b, a);
    } else {
      NoShare(n, fixed, max, a);
      NoShare(n, fixed, max, b);
    }
  }

  lemma {:induction false} NoShare(n: nat, fixed: nat, max: nat, a: nat)
    requires n > 0 && IsShare(n, fixed, max, a) && max <= fixed + n * 120 + 300
    ensures a == 0
  {
  }

  lemma {:induction false} SharesBelow(n: nat, fixed: nat, max: nat, a: nat, b: nat)
    requires n > 0 && IsShare(n, fixed, max, a) && IsShare(n, fixed, max, b) && max > fixed + n * 120 + 300
    ensures a <= b
  {
    MultipleBelow(n, max - (fixed + n * 120 + 300), a, b);
  }

  lemma {:induction false} MultipleBelow(n: nat, left: nat, a: nat, b: nat)
    requires n * a <= left < n * (b + 1)
    ensures a <= b
  {
    assert a > b ==> n * a == n * (b + 1) + n * (a - (b + 1));
  }

  /** What does not fit is shown file by file, each through the same window, and then cut to the limit: the
      characters that fit into it, a newline and the notice. */
  lemma {:induction false} CutReads(
    w: Wording, diff: string, files: seq<File>, note: string, max: nat, share: nat, parts: seq<string>,
    frames: seq<string>, shown: nat)
    requires Framed(w, files, frames) && ShownInPart(w, files, share, parts) && Bytes(Whole(w, diff, files, note)) > max
    requires IsShare(|files|, Bytes(Opening(diff)) + Bytes(note) + Bytes(Joined(frames)), max, share)
    requires var cut := Opening(diff) + Joined(parts) + note;
      shown <= |cut| && Bytes(cut[..shown]) <= max && (shown == |cut| || Bytes(cut[..shown + 1]) > max)
    ensures var cut := Opening(diff) + Joined(parts) + note;
      Summary(w, diff, files, note, max) ==
        cut[..shown] + "\n" + w.notice(Bytes(cut[..shown]), Bytes(Whole(w, diff, files, note)))
  {
    FramesJoined(w, files, frames, |files|);
    assert frames[..|files|] == frames && parts[..|files|] == parts;
    var fixed := Fixed(w, diff, files, note);
    ShareMeans(|files|, fixed, max);
    if files != [] { OneShare(|files|, fixed, max, share, ShareOf(|files|, fixed, max)); }
    if files == [] {
      assert Joined(parts) == "" == Windows(w, files, Share(w, diff, files, note, max), 0);
    } else {
      WindowsJoined(w, files, share, parts, |files|);
    }
    var cut := Opening(diff) + Joined(parts) + note;
    assert cut == Cut(w, diff, files, note, max);
    CappedAt(w, cut, max, Bytes(Whole(w, diff, files, note)), shown);
  }

  lemma {:induction false} CappedAt(w: Wording, s: string, max: nat, whole: nat, shown: nat)
    requires shown <= |s| && Bytes(s[..shown]) <= max && (shown == |s| || Bytes(s[..shown + 1]) > max)
    ensures Capped(w, s, max, whole) == s[..shown] + "\n" + w.notice(Bytes(s[..shown]), whole)
  {
    FittingIsLongest(s, max, shown);
    if shown < |s| { FittingIsLongest(s, max, shown + 1); }
    var notice := w.notice(Bytes(s[..shown]), whole);
    assert s[..shown] + ("\n" + notice) == s[..shown] + "\n" + notice;
  }

  // ---- Bounds ----

  lemma {:induction false} BlankBytes()
    ensures Bytes("\n") == 1 && Bytes("") == 0
  {
    assert "\n"[1..] == "";
  }

  lemma {:induction false} NoticedBytes(w: Wording, s: string, whole: nat)
    ensures Bytes(Noticed(w, s, whole)) == Bytes(s) + 1 + Bytes(w.notice(Bytes(s), whole))
  {
    var n := w.notice(Bytes(s), whole);
    BlankBytes();
    BytesConcat("\n", n);
    BytesConcat(s, "\n" + n);
  }

  lemma {:induction false} CappedBytes(w: Wording, s: string, max: nat, whole: nat) returns (shown: nat)
    ensures shown <= max && Bytes(Capped(w, s, max, whole)) == shown + 1 + Bytes(w.notice(shown, whole))
  {
    var fit := Fitting(s, max);
    FittingIsLongest(s, max, fit);
    NoticedBytes(w, s[..fit], whole);
    shown := Bytes(s[..fit]);
  }

  /** In every case the summary is at most `max` bytes of evidence, one newline and the notice. */
  lemma {:induction false} SummaryIsBounded(
    w: Wording, diff: string, files: seq<File>, note: string, max: nat, summary: string, whole: nat)
    requires summary == Summary(w, diff, files, note, max) && whole == Bytes(Whole(w, diff, files, note))
    ensures if whole <= max then summary == Whole(w, diff, files, note)
            else exists shown: nat | shown <= max :: Bytes(summary) == shown + 1 + Bytes(w.notice(shown, whole))
  {
    if whole > max {
      var shown := CappedBytes(w, Cut(w, diff, files, note, max), max, whole);
    }
  }

  lemma {:induction false} NextCharacter(s: string, k: nat)
    requires k < |s|
    ensures Bytes(s[..k + 1]) <= Bytes(s[..k]) + 4
  {
    assert s[..k + 1] == s[..k] + [s[k]] && [s[k]][1..] == "";
    BytesConcat(s[..k], [s[k]]);
  }

  lemma {:induction false} CappedLimit(w: Wording, s: string, max: nat, whole: nat)
    requires forall shown: nat :: Bytes(w.notice(shown, whole)) >= 4
    ensures Bytes(Capped(w, s, max, whole)) <= max <==> Bytes(s) + 1 + Bytes(w.notice(Bytes(s), whole)) <= max
  {
    var fit := Fitting(s, max);
    FittingIsLongest(s, max, |s|);
    assert s[..|s|] == s;
    NoticedBytes(w, s[..fit], whole);
    if fit < |s| {
      FittingIsLongest(s, max, fit + 1);
      NextCharacter(s, fit);
    }
  }

  /** A summary that does not fit whole keeps to the limit exactly when the text assembled from the
      windows, a newline and the notice do. */
  lemma {:induction false} LimitHolds(w: Wording, diff: string, files: seq<File>, note: string, max: nat, whole: nat)
    requires whole == Bytes(Whole(w, diff, files, note)) && whole > max
    requires forall shown: nat :: Bytes(w.notice(shown, whole)) >= 4
    ensures var cut := Cut(w, diff, files, note, max);
            Bytes(Summary(w, diff, files, note, max)) <= max <==>
            Bytes(cut) + 1 + Bytes(w.notice(Bytes(cut), whole)) <= max
  {
    CappedLimit(w, Cut(w, diff, files, note, max), max, whole);
  }

  // ---- When the reserves suffice, nothing is cut but the windows ----

  /** The marker under any window of the file fits its reserve. */
  predicate MarkerFits(w: Wording, f: File) {
    forall window: nat | window < |f.content| :: Bytes(w.marker(f.name, window, |f.content|)) <= FILE_MARKER_RESERVE
  }

  predicate FileFits(w: Wording, f: File) { SingleByte(f.content) && MarkerFits(w, f) }

  predicate FilesFit(w: Wording, files: seq<File>) { forall k | 0 <= k < |files| :: FileFits(w, files[k]) }

  const USIZE_LIMIT := 0x1_0000_0000_0000_0000

  /** The notice fits its reserve whatever two machine words it reports. */
  ghost predicate NoticeFits(w: Wording) {
    forall shown: nat, whole: nat | shown < USIZE_LIMIT && whole < USIZE_LIMIT ::
      Bytes(w.notice(shown, whole)) + 1 <= GLOBAL_MARKER_RESERVE
  }

  lemma {:induction false} PiecesBytes(header: string, shown: string, marker: string)
    ensures Bytes(header + (shown + ("\n" + marker))) == Bytes(header) + Bytes(shown) + 1 + Bytes(marker)
  {
    BlankBytes();
    BytesConcat("\n", marker);
    BytesConcat(shown, "\n" + marker);
    BytesConcat(header, shown + ("\n" + marker));
  }

  lemma {:induction false} WindowBytes(w: Wording, f: File, share: nat)
    requires FileFits(w, f)
    ensures Bytes(Windowed(w, f, share)) <= Bytes(Header(w, f)) + 1 + share + FILE_MARKER_RESERVE
  {
    var window := Least(share, |f.content|);
    SingleByteLength(f.content[..window]);
    BlankBytes();
    PiecesBytes(Header(w, f), f.content[..window], MarkerOf(w, f, window));
  }

  lemma {:induction false} WindowsBytes(w: Wording, files: seq<File>, share: nat, n: nat)
    requires n <= |files| && FilesFit(w, files)
    ensures Bytes(Windows(w, files, share, n)) <= Frames(w, files, n) + n * (share + FILE_MARKER_RESERVE)
  {
    if n > 0 {
      WindowsBytes(w, files, share, n - 1);
      WindowBytes(w, files[n - 1], share);
      BytesConcat(Windows(w, files, share, n - 1), Windowed(w, files[n - 1], share));
      assert n * (share + FILE_MARKER_RESERVE) == (n - 1) * (share + FILE_MARKER_RESERVE) + share + FILE_MARKER_RESERVE;
    }
  }

  /** The budget can hold the fixed text and all the reserves. */
  predicate ReservesFit(n: nat, fixed: nat, max: nat) {
    fixed + n * FILE_MARKER_RESERVE + GLOBAL_MARKER_RESERVE <= max
  }

  lemma {:induction false} SharesFit(n: nat, fixed: nat, max: nat)
    requires ReservesFit(n, fixed, max)
    ensures fixed + n * (ShareOf(n, fixed, max) + FILE_MARKER_RESERVE) + GLOBAL_MARKER_RESERVE <= max
  {
    var share := ShareOf(n, fixed, max);
    assert n * (share + FILE_MARKER_RESERVE) == n * share + n * FILE_MARKER_RESERVE;
    if n > 0 {
      var left := max - fixed - (n * FILE_MARKER_RESERVE + GLOBAL_MARKER_RESERVE);
      assert n * share == left - left % n;
    }
  }

  lemma {:induction false} CutBytes(w: Wording, diff: string, files: seq<File>, note: string, max: nat)
    requires ReservesFit(|files|, Fixed(w, diff, files, note), max) && FilesFit(w, files)
    ensures Bytes(Cut(w, diff, files, note, max)) + GLOBAL_MARKER_RESERVE <= max
  {
    var share := Share(w, diff, files, note, max);
    WindowsBytes(w, files, share, |files|);
    BytesConcat(Tracked(diff), Windows(w, files, share, |files|));
    BytesConcat(Tracked(diff) + Windows(w, files, share, |files|), note);
    SharesFit(|files|, Fixed(w, diff, files, note), max);
  }

  lemma {:induction false} FitsUncut(w: Wording, s: string, max: nat, whole: nat)
    requires NoticeFits(w) && Bytes(s) + GLOBAL_MARKER_RESERVE <= max < USIZE_LIMIT && whole < USIZE_LIMIT
    ensures Capped(w, s, max, whole) == Noticed(w, s, whole) && Bytes(Noticed(w, s, whole)) <= max
  {
    FittingIsLongest(s, max, |s|);
    assert s[..|s|] == s;
    NoticedBytes(w, s, whole);
  }

  /** Main result: when the fixed text and the reserves fit and file contents are single-byte text,
      the cut summary is not cut again: it is every file's window, exactly the smaller of its size and
      the common share, and with the notice it stays within `max`. */
  lemma {:induction false} WindowsAreNotCut(
    w: Wording, diff: string, files: seq<File>, note: string, max: nat, whole: nat)
    requires whole == Bytes(Whole(w, diff, files, note)) && max < whole < USIZE_LIMIT
    requires NoticeFits(w) && FilesFit(w, files) && ReservesFit(|files|, Fixed(w, diff, files, note), max)
    ensures Summary(w, diff, files, note, max) == Noticed(w, Cut(w, diff, files, note, max), whole)
    ensures Bytes(Summary(w, diff, files, note, max)) <= max
  {
    CutBytes(w, diff, files, note, max);
    FitsUncut(w, Cut(w, diff, files, note, max), max, whole);
  }

  /** `part` stands somewhere in `text`. */
  ghost predicate Contains(text: string, part: string) { exists a: string, b: string :: text == a + part + b }

  lemma {:induction false} ContainsInside(a: string, b: string, c: string, part: string)
    requires Contains(b, part)
    ensures Contains(a + b + c, part)
  {
    var x: string, y: string :| b == x + part + y;
    assert a + b + c == (a + x) + part + (y + c);
  }

  lemma {:induction false} WindowsShow(w: Wording, files: seq<File>, share: nat, n: nat, k: nat)
    requires k < n <= |files|
    ensures Contains(Windows(w, files, share, n), Windowed(w, files[k], share))
  {
    var before, last := Windows(w, files, share, n - 1), Windowed(w, files[n - 1], share);
    if k == n - 1 {
      assert before + last == before + last + "";
    } else {
      WindowsShow(w, files, share, n - 1, k);
      ContainsInside("", before, last, Windowed(w, files[k], share));
      assert "" + before + last == before + last;
    }
  }

  /** No sibling crowds a file out: the summary then holds every file's own window. */
  lemma {:induction false} EveryFileIsShown(
    w: Wording, diff: string, files: seq<File>, note: string, max: nat, whole: nat, k: nat)
    requires whole == Bytes(Whole(w, diff, files, note)) && max < whole < USIZE_LIMIT
    requires NoticeFits(w) && FilesFit(w, files) && ReservesFit(|files|, Fixed(w, diff, files, note), max)
    requires k < |files|
    ensures Contains(Summary(w, diff, files, note, max), Windowed(w, files[k], Share(w, diff, files, note, max)))
  {
    var share, cut := Share(w, diff, files, note, max), Cut(w, diff, files, note, max);
    var notice := "\n" + w.notice(Bytes(cut), whole);
    WindowsAreNotCut(w, diff, files, note, max, whole);
    WindowsShow(w, files, share, |files|, k);
    ContainsInside(Tracked(diff), Windows(w, files, share, |files|), note + notice, Windowed(w, files[k], share));
    assert cut + notice == Tracked(diff) + Windows(w, files, share, |files|) + (note + notice);
  }

  // ---- Generated files ----

  function BaseName(path: string): string {
    if path == "" || path[|path| - 1] == '/' then "" else BaseName(path[..|path| - 1]) + [path[|path| - 1]]
  }

  predicate EndsWith(s: string, suffix: string) { |s| >= |suffix| && s[|s| - |suffix|..] == suffix }

  predicate IsGenerated(path: string) { EndsWith(BaseName(path), "-lock.json") || BaseName(path) == "Cargo.lock" }

  /** The base name is what follows the last slash. */
  lemma {:induction false} BaseNameMeans(path: string) returns (dir: string)
    ensures path == dir + BaseName(path) && '/' !in BaseName(path)
    ensures dir == "" || dir[|dir| - 1] == '/'
  {
    if path == "" || path[|path| - 1] == '/' {
      dir := path;
      assert path == dir + "";
    } else {
      var front, last := path[..|path| - 1], path[|path| - 1];
      dir := BaseNameMeans(front);
      assert path == front + [last] == dir + (BaseName(front) + [last]);
    }
  }

  lemma {:induction false} BaseNameOf(dir: string, name: string)
    requires '/' !in name && (dir == "" || dir[|dir| - 1] == '/')
    ensures BaseName(dir + name) == name
    decreases |name|
  {
    var path := dir + name;
    if name == "" {
      assert path == dir;
    } else {
      assert path[..|path| - 1] == dir + name[..|name| - 1] && path[|path| - 1] == name[|name| - 1];
      BaseNameOf(dir, name[..|name| - 1]);
      assert name == name[..|name| - 1] + [name[|name| - 1]];
    }
  }

  /** A lockfile by its name: in any directory, `Cargo.lock` or anything that ends in `-lock.json`. */
  lemma {:induction false} GeneratedMeans(path: string)
    ensures IsGenerated(path) <==>
      exists dir, name :: path == dir + name && '/' !in name && (dir == "" || dir[|dir| - 1] == '/')
        && (name == "Cargo.lock" || (|name| >= 10 && name[|name| - 10..] == "-lock.json"))
  {
    var dir := BaseNameMeans(path);
    forall d, name | path == d + name && '/' !in name && (d == "" || d[|d| - 1] == '/') ensures name == BaseName(path) {
      BaseNameOf(d, name);
    }
  }

  function HandWritten(untracked: seq<File>, n: nat): seq<File>
    requires n <= |untracked|
    decreases n
  {
    if n == 0 then []
    else HandWritten(untracked, n - 1) + if IsGenerated(untracked[n - 1].name) then [] else [untracked[n - 1]]
  }

  function GeneratedNames(untracked: seq<File>, n: nat): seq<string>
    requires n <= |untracked|
    decreases n
  {
    if n == 0 then []
    else
      GeneratedNames(untracked, n - 1)
      + if IsGenerated(untracked[n - 1].name) then [untracked[n - 1].name] else []
  }

  lemma {:induction false} HandWrittenMeans(untracked: seq<File>, n: nat)
    requires n <= |untracked|
    ensures forall f :: f in HandWritten(untracked, n) <==> f in untracked[..n] && !IsGenerated(f.name)
  {
    hide IsGenerated;
    if n > 0 {
      HandWrittenMeans(untracked, n - 1);
      assert untracked[..n] == untracked[..n - 1] + [untracked[n - 1]];
    }
  }

  lemma {:induction false} GeneratedNamesMean(untracked: seq<File>, n: nat)
    requires n <= |untracked|
    ensures forall name :: name in GeneratedNames(untracked, n) <==>
      IsGenerated(name) && exists f :: f in untracked[..n] && f.name == name
  {
    hide IsGenerated;
    if n > 0 {
      GeneratedNamesMean(untracked, n - 1);
      var last := untracked[n - 1];
      assert untracked[..n] == untracked[..n - 1] + [last];
      assert last in untracked[..n];
      forall f | f in untracked[..n - 1] ensures f in untracked[..n] {}
    }
  }

  /** No file is lost: each is shown or named. */
  lemma {:induction false} NoFileIsLost(untracked: seq<File>, n: nat)
    requires n <= |untracked|
    ensures |HandWritten(untracked, n)| + |GeneratedNames(untracked, n)| == n
  {
    if n > 0 { NoFileIsLost(untracked, n - 1); }
  }

  /** Two hand-written files stand in the summary in the order in which git lists them. */
  lemma {:induction false} OrderIsKept(untracked: seq<File>, n: nat, i: nat, j: nat)
    requires n <= |untracked| && i < j < |HandWritten(untracked, n)|
    ensures exists a, b :: 0 <= a < b < n
                        && untracked[a] == HandWritten(untracked, n)[i] && untracked[b] == HandWritten(untracked, n)[j]
  {
    hide IsGenerated;
    var kept := HandWritten(untracked, n);
    if j < |HandWritten(untracked, n - 1)| {
      OrderIsKept(untracked, n - 1, i, j);
    } else {
      HandWrittenMeans(untracked, n - 1);
      assert kept[i] in HandWritten(untracked, n - 1);
      var a :| 0 <= a < |untracked[..n - 1]| && untracked[..n - 1][a] == kept[i];
      assert untracked[a] == kept[i] && untracked[n - 1] == kept[j];
    }
  }

  method SortUntracked(untracked: seq<File>) returns (files: seq<File>, generated: seq<string>)
    ensures files == HandWritten(untracked, |untracked|) && generated == GeneratedNames(untracked, |untracked|)
    ensures forall f :: f in files <==> f in untracked && !IsGenerated(f.name)
    ensures forall name :: name in generated <==> IsGenerated(name) && exists f :: f in untracked && f.name == name
    ensures |files| + |generated| == |untracked|
  {
    HandWrittenMeans(untracked, |untracked|);
    GeneratedNamesMean(untracked, |untracked|);
    NoFileIsLost(untracked, |untracked|);
    assert untracked[..|untracked|] == untracked;
    files, generated := [], [];
    for i := 0 to |untracked|
      invariant files == HandWritten(untracked, i) && generated == GeneratedNames(untracked, i)
    {
      if IsGenerated(untracked[i].name) {
        generated := generated + [untracked[i].name];
      } else {
        files := files + [untracked[i]];
      }
    }
  }

  /** The same file, as far as the summary may look: a generated file's content does not count. */
  predicate SameEvidence(a: File, b: File) { a.name == b.name && (!IsGenerated(a.name) ==> a.content == b.content) }

  /** A lockfile can never starve the implementation: no content of a generated file reaches the
      list of previews or the names in the note. */
  lemma {:induction false} GeneratedContentIsIgnored(a: seq<File>, b: seq<File>, n: nat)
    requires n <= |a| == |b| && forall k | 0 <= k < |a| :: SameEvidence(a[k], b[k])
    ensures HandWritten(a, n) == HandWritten(b, n) && GeneratedNames(a, n) == GeneratedNames(b, n)
  {
    if n > 0 {
      GeneratedContentIsIgnored(a, b, n - 1);
      assert SameEvidence(a[n - 1], b[n - 1]);
    }
  }
}
