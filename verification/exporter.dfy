/** The pure decisions of the userscript entry point (src/main.ts): reading
    the post id from the detail view's title, tracking whether an export is
    possible, assembling the aggregate, and naming the exported file. */
module Exporter {
  import opened Results
  import opened Text
  import opened Model
  import opened Http
  import opened Client

  // ---------------------------------------------------------------- parsePidFromTitle

  /** Where `/#(\d+)/` can match: a `#` immediately followed by an ASCII digit. */
  predicate HashDigitAt(title: string, i: int) {
    0 <= i && i + 1 < |title| && title[i] == '#' && IsDigit(title[i + 1])
  }

  /** `parsePidFromTitle`: the value of the digits after the first `#` that
      a digit follows, all of them up to the first non-digit. */
  function ParsePidFromTitle(title: string): (r: Option<nat>)
    ensures r.None? <==> forall i :: 0 <= i < |title| ==> !HashDigitAt(title, i)
    ensures r.Some? ==>
      exists i :: HashDigitAt(title, i)
        && (forall j :: 0 <= j < i ==> !HashDigitAt(title, j))
        && var run := Span(title[i + 1..], IsDigit);
           |run| >= 1 && AllDigits(run) && r.value == DigitsValue(run)
  {
    var at := i => HashDigitAt(title, i);
    assert forall i :: at(i) == HashDigitAt(title, i);
    match FirstWhere(at, 0, |title|)
    case None => None
    case Some(i) =>
      var run := Span(title[i + 1..], IsDigit);
      assert |run| >= 1 && AllDigits(run);
      Some(DigitsValue(run))
  }

  /** A `#` without digits is skipped. */
  lemma ParsePidSkipsBareHash()
    ensures ParsePidFromTitle("#abc #12") == Some(12)
  {
    var t := "#abc #12";
    assert HashDigitAt(t, 5);
    assert forall j :: 0 <= j < 5 ==> !HashDigitAt(t, j);
    assert t[6..] == "12";
    var run := Span(t[6..], IsDigit);
    assert |run| == 2;
    assert run == "12";
    assert DigitsValue("12") == 12 by {
      assert "12"[..1] == "1";
    }
  }

  /** Leading zeros are dropped. */
  lemma ParsePidDropsLeadingZeros()
    ensures ParsePidFromTitle("#007") == Some(7)
  {
    var t := "#007";
    assert HashDigitAt(t, 0);
    assert t[1..] == "007";
    var run := Span(t[1..], IsDigit);
    assert |run| == 3;
    assert run == "007";
    assert DigitsValue("007") == 7 by {
      assert "007"[..2] == "00";
      assert "00"[..1] == "0";
    }
  }

  // ---------------------------------------------------------------- refreshState

  /** What one poll of the page observes: the title element's text (`None`
      when the element is absent) and whether the toolbar element exists. */
  datatype View = View(title: Option<string>, toolbarPresent: bool)

  /** Both elements of the post detail view are on the page. */
  predicate DetailShown(v: View) {
    v.title.Some? && v.toolbarPresent
  }

  /** The module-level state `refreshState` maintains. */
  datatype Watch = Watch(currentPid: Option<nat>, warnedMissing: bool)

  datatype ButtonAction = EnsureButton | RemoveButton

  /** One poll's effect: the next state, whether the missing-view warning
      was logged, and what happens to the export button. */
  datatype Tick = Tick(next: Watch, warned: bool, button: ButtonAction)

  /** `refreshState`: an export target exists exactly when the detail view is
      shown and its title names a nonzero pid; the missing-view warning is
      logged only when it is not already pending. */
  function RefreshState(w: Watch, v: View): (t: Tick)
    ensures t.next.currentPid.Some? <==>
      DetailShown(v) && ParsePidFromTitle(v.title.value).Some? && ParsePidFromTitle(v.title.value).value != 0
    ensures t.next.currentPid.Some? ==> t.next.currentPid == ParsePidFromTitle(v.title.value)
    ensures t.next.warnedMissing <==> !DetailShown(v)
    ensures t.warned <==> !DetailShown(v) && !w.warnedMissing
    ensures t.button == EnsureButton <==> t.next.currentPid.Some?
  {
    if !DetailShown(v) then
      Tick(Watch(None, true), !w.warnedMissing, RemoveButton)
    else
      match ParsePidFromTitle(v.title.value)
      case Some(pid) =>
        if pid == 0 then Tick(Watch(None, false), false, RemoveButton)
        else Tick(Watch(Some(pid), false), false, EnsureButton)
      case None => Tick(Watch(None, false), false, RemoveButton)
  }

  /** Runs `refreshState` once per view; yields the final state and how many
      warnings were logged. */
  function Poll(w: Watch, views: seq<View>): (Watch, nat)
    decreases |views|
  {
    if |views| == 0 then (w, 0)
    else
      var t := RefreshState(w, views[0]);
      var rest := Poll(t.next, views[1..]);
      (rest.0, rest.1 + if t.warned then 1 else 0)
  }

  /** Over any stretch in which the detail view stays absent, the warning is
      logged at most once: once if none was pending when the stretch began,
      never otherwise. */
  lemma {:induction false} WarnsOncePerAbsence(w: Watch, views: seq<View>)
    requires forall i :: 0 <= i < |views| ==> !DetailShown(views[i])
    ensures Poll(w, views).1 == if |views| > 0 && !w.warnedMissing then 1 else 0
    ensures |views| > 0 ==> Poll(w, views).0 == Watch(None, true)
    decreases |views|
  {
    if |views| > 0 {
      WarnsOncePerAbsence(RefreshState(w, views[0]).next, views[1..]);
    }
  }

  // ---------------------------------------------------------------- users

  /** The display name the author of the post is listed under. */
  const Host := "洞主"

  /** `comments.map((c) => c.name).filter(Boolean)`. */
  function NonEmptyNames(comments: seq<Comment>): (names: seq<string>)
    ensures forall u :: u in names <==> u != "" && exists k :: 0 <= k < |comments| && comments[k].name == u
    ensures |names| <= |comments|
  {
    if |comments| == 0 then []
    else
      var last := comments[|comments| - 1];
      var prefix := NonEmptyNames(comments[..|comments| - 1]);
      assert forall k :: 0 <= k < |comments| - 1 ==> comments[..|comments| - 1][k] == comments[k];
      prefix + if last.name == "" then [] else [last.name]
  }

  /** What is fed into the participant set, in order. */
  function Candidates(comments: seq<Comment>): (names: seq<string>)
    ensures |names| >= 1 && names[0] == Host
    ensures forall u :: u in names <==>
      u == Host || (u != "" && exists k :: 0 <= k < |comments| && comments[k].name == u)
  {
    [Host] + NonEmptyNames(comments)
  }

  /** The position of the first occurrence of `x` in `s`. */
  function FirstIndex(s: seq<string>, x: string): (k: nat)
    requires x in s
    ensures k < |s| && s[k] == x && x !in s[..k]
  {
    if s[0] == x then 0
    else
      var k := FirstIndex(s[1..], x);
      assert s[..k + 1] == [s[0]] + s[1..][..k];
      k + 1
  }

  /** `out` holds each element of `names` once, in order of first appearance. */
  ghost predicate FirstOccurrences(names: seq<string>, out: seq<string>) {
    && (forall i, j :: 0 <= i < j < |out| ==> out[i] != out[j])
    && (forall u :: u in out <==> u in names)
    && (forall i, j :: 0 <= i < j < |out| ==> FirstIndex(names, out[i]) < FirstIndex(names, out[j]))
  }

  /** `out` is what a `Set` holds after the first `k` of `names` were added. */
  ghost predicate SetAfter(names: seq<string>, k: int, out: seq<string>)
    requires 0 <= k <= |names|
  {
    && (forall u :: u in out <==> u in names[..k])
    && (forall i, j :: 0 <= i < j < |out| ==> out[i] != out[j])
    && (forall i :: 0 <= i < |out| ==> out[i] in names && FirstIndex(names, out[i]) < k)
    && (forall i, j :: 0 <= i < j < |out| ==> FirstIndex(names, out[i]) < FirstIndex(names, out[j]))
  }

  /** An element not seen before position `k` first occurs at `k`. */
  lemma FirstIndexAt(s: seq<string>, k: int)
    requires 0 <= k < |s| && s[k] !in s[..k]
    ensures FirstIndex(s, s[k]) == k
  {
  }

  /** Adding the next name appends it exactly when it is new. */
  lemma SetAdd(names: seq<string>, k: int, out: seq<string>)
    requires 0 <= k < |names| && SetAfter(names, k, out)
    ensures SetAfter(names, k + 1, if names[k] in out then out else out + [names[k]])
  {
    assert names[..k + 1] == names[..k] + [names[k]];
    if names[k] !in out {
      SetAddNew(names, k, out);
    }
  }

  lemma SetAddNew(names: seq<string>, k: int, out: seq<string>)
    requires 0 <= k < |names| && SetAfter(names, k, out) && names[k] !in out
    ensures SetAfter(names, k + 1, out + [names[k]])
  {
    var name := names[k];
    var out' := out + [name];
    assert names[..k + 1] == names[..k] + [name];
    FirstIndexAt(names, k);
    assert forall i :: 0 <= i < |out| ==> out'[i] == out[i];
    assert forall i :: 0 <= i < |out'| ==> out'[i] in names && FirstIndex(names, out'[i]) < k + 1;
    assert forall i, j :: 0 <= i < j < |out'| ==> FirstIndex(names, out'[i]) < FirstIndex(names, out'[j]);
  }

  /** `Array.from(new Set(names))`: a `Set` keeps insertion order and ignores
      repeated insertions. */
  method ArrayFromSet(names: seq<string>) returns (out: seq<string>)
    ensures FirstOccurrences(names, out)
    ensures |names| > 0 ==> |out| > 0 && out[0] == names[0]
  {
    var seen: set<string> := {};
    out := [];
    var k := 0;
    while k < |names|
      invariant 0 <= k <= |names|
      invariant forall u :: u in seen <==> u in out
      invariant SetAfter(names, k, out)
      invariant k > 0 ==> |out| > 0 && out[0] == names[0]
    {
      var name := names[k];
      SetAdd(names, k, out);
      if name !in seen {
        out := out + [name];
        seen := seen + {name};
      }
      k := k + 1;
    }
    assert names[..k] == names;
  }

  /** `users` lists the host first, then every other non-empty commenter
      name once, in order of first appearance. */
  ghost predicate ParticipantList(comments: seq<Comment>, users: seq<string>) {
    && |users| >= 1 && users[0] == Host
    && FirstOccurrences(Candidates(comments), users)
  }

  /** The `users` of the aggregate: `new Set(["洞主", ...names])` as an array. */
  method Participants(comments: seq<Comment>) returns (users: seq<string>)
    ensures ParticipantList(comments, users)
  {
    users := ArrayFromSet(Candidates(comments));
  }

  /** Every commenter's name, empty ones included, in comment order. */
  function Names(comments: seq<Comment>): (names: seq<string>)
    ensures |names| == |comments|
    ensures forall k :: 0 <= k < |comments| ==> names[k] == comments[k].name
  {
    if |comments| == 0 then []
    else Names(comments[..|comments| - 1]) + [comments[|comments| - 1].name]
  }

  /** A first occurrence inside `s` is not moved by appending to `s`. */
  lemma {:induction false} FirstIndexPrefix(s: seq<string>, t: seq<string>, x: string)
    requires x in s
    ensures FirstIndex(s + t, x) == FirstIndex(s, x)
  {
    if s[0] != x {
      assert s == [s[0]] + s[1..];
      assert (s + t)[1..] == s[1..] + t;
      FirstIndexPrefix(s[1..], t, x);
    }
  }

  /** An element first found in the appended part is found past `s`. */
  lemma {:induction false} FirstIndexPast(s: seq<string>, t: seq<string>, x: string)
    requires x !in s && x in t
    ensures FirstIndex(s + t, x) == |s| + FirstIndex(t, x)
  {
    if |s| == 0 {
      assert s + t == t;
    } else {
      assert (s + t)[0] == s[0];
      assert (s + t)[1..] == s[1..] + t;
      FirstIndexPast(s[1..], t, x);
    }
  }

  /** Dropping the empty names keeps the order in which the other names
      first appear: of two non-empty commenter names, the one whose first
      comment comes earlier also comes earlier after filtering. */
  lemma {:induction false} NamesOrder(comments: seq<Comment>, u: string, v: string)
    requires u != "" && v != "" && u in Names(comments) && v in Names(comments)
    ensures u in NonEmptyNames(comments) && v in NonEmptyNames(comments)
    ensures FirstIndex(NonEmptyNames(comments), u) < FirstIndex(NonEmptyNames(comments), v)
        <==> FirstIndex(Names(comments), u) < FirstIndex(Names(comments), v)
    decreases |comments|
  {
    var n := |comments|;
    if n > 0 {
      var init := comments[..n - 1];
      var name := comments[n - 1].name;
      var filtered := NonEmptyNames(init);
      var all := Names(init);
      var tail := if name == "" then [] else [name];
      assert NonEmptyNames(comments) == filtered + tail;
      assert Names(comments) == all + [name];
      InNamesFiltered(comments, u);
      InNamesFiltered(comments, v);
      FilteredInNames(init, u);
      FilteredInNames(init, v);
      if u in all {
        InNamesFiltered(init, u);
      }
      if v in all {
        InNamesFiltered(init, v);
      }
      if u in all && v in all {
        NamesOrder(init, u, v);
      }
      OrderAppend(filtered, tail, all, [name], u, v);
    }
  }

  /** Appending to two sequences that hold the same elements, in the same
      first-occurrence order, keeps the order of any two elements found in
      the results, provided at most one element is new to both. */
  lemma OrderAppend(f: seq<string>, tf: seq<string>, a: seq<string>, ta: seq<string>, u: string, v: string)
    requires u in f + tf && v in f + tf && u in a + ta && v in a + ta
    requires (u in f <==> u in a) && (v in f <==> v in a)
    requires u in f && v in f ==> (FirstIndex(f, u) < FirstIndex(f, v) <==> FirstIndex(a, u) < FirstIndex(a, v))
    requires u !in f && v !in f ==> u == v
    ensures FirstIndex(f + tf, u) < FirstIndex(f + tf, v) <==> FirstIndex(a + ta, u) < FirstIndex(a + ta, v)
  {
    if u in f {
      FirstIndexPrefix(f, tf, u);
      FirstIndexPrefix(a, ta, u);
    } else {
      FirstIndexPast(f, tf, u);
      FirstIndexPast(a, ta, u);
    }
    if v in f {
      FirstIndexPrefix(f, tf, v);
      FirstIndexPrefix(a, ta, v);
    } else {
      FirstIndexPast(f, tf, v);
      FirstIndexPast(a, ta, v);
    }
  }

  /** A non-empty commenter name survives the filter. */
  lemma InNamesFiltered(comments: seq<Comment>, u: string)
    requires u != "" && u in Names(comments)
    ensures u in NonEmptyNames(comments)
  {
    var k :| 0 <= k < |comments| && Names(comments)[k] == u;
    assert comments[k].name == u;
  }

  /** The filter invents no name. */
  lemma FilteredInNames(comments: seq<Comment>, u: string)
    ensures u in NonEmptyNames(comments) ==> u in Names(comments)
  {
    if u in NonEmptyNames(comments) {
      var k :| 0 <= k < |comments| && comments[k].name == u;
      assert Names(comments)[k] == u;
    }
  }

  /** After the host, `users` lists commenters in the order of their first
      comments: each entry is a non-empty name some comment carries, other
      than `洞主`, and an earlier entry's first comment precedes a later
      entry's first comment. */
  lemma ParticipantsFollowComments(comments: seq<Comment>, users: seq<string>)
    requires ParticipantList(comments, users)
    ensures forall i :: 1 <= i < |users| ==>
      users[i] != Host && users[i] != "" && users[i] in Names(comments)
    ensures forall i, j :: 1 <= i < j < |users| ==>
      && users[i] in Names(comments) && users[j] in Names(comments)
      && FirstIndex(Names(comments), users[i]) < FirstIndex(Names(comments), users[j])
  {
    var filtered := NonEmptyNames(comments);
    assert Candidates(comments) == [Host] + filtered;
    forall i | 1 <= i < |users|
      ensures users[i] != Host && users[i] != "" && users[i] in Names(comments)
      ensures FirstIndex(Candidates(comments), users[i]) == 1 + FirstIndex(filtered, users[i])
    {
      assert users[i] != users[0];
      assert users[i] in Candidates(comments);
      FilteredInNames(comments, users[i]);
      FirstIndexPast([Host], filtered, users[i]);
    }
    forall i, j | 1 <= i < j < |users|
      ensures FirstIndex(Names(comments), users[i]) < FirstIndex(Names(comments), users[j])
    {
      NamesOrder(comments, users[i], users[j]);
    }
  }

  // ---------------------------------------------------------------- file name

  /** `pad(n)`: the decimal text of `n` left-padded with `'0'` to two
      characters; `PadIsPadStart` ties it to `padStart`. */
  function Pad(n: int): (r: string)
    ensures |r| >= 2
    ensures 0 <= n < 100 ==> |r| == 2
  {
    if 0 <= n < 10 then ['0', DigitChar(n)] else IntToString(n)
  }

  /** `Pad` is `n.toString().padStart(2, "0")`: only a single digit gets a
      leading zero, every other text already has two characters. */
  lemma PadIsPadStart(n: int)
    ensures Pad(n) == PadStart(IntToString(n), 2, '0')
  {
    var s := IntToString(n);
    var p := PadStart(s, 2, '0');
    if 0 <= n < 10 {
      assert |s| == 1 && s[0] == DigitChar(n);
      assert p == [p[0]] + p[1..];
    }
  }

  /** A padded non-negative number still reads back as that number. */
  lemma PadReadsBack(n: int)
    requires n >= 0
    ensures ParseInt(Pad(n)) == Some(n)
  {
    var r := Pad(n);
    if n < 10 {
      assert r[..1] == "0";
      assert DigitsValue(r[..1]) == 0;
    } else {
      IntToStringRoundTrip(n);
    }
  }

  /** The local date and time fields `exportPdf` reads from `new Date()`;
      `month` is 0-based, as `getMonth` returns it. */
  datatype Clock = Clock(year: int, month: int, day: int, hours: int, minutes: int, seconds: int)

  predicate ValidClock(c: Clock) {
    && 1000 <= c.year <= 9999
    && 0 <= c.month < 12
    && 1 <= c.day <= 31
    && 0 <= c.hours < 24
    && 0 <= c.minutes < 60
    && 0 <= c.seconds < 60
  }

  /** `YYYYMMDD_HHMMSS`: the year as written, every other field padded. */
  function Timestamp(c: Clock): string {
    Stamp(IntToString(c.year), Pad(c.month + 1), Pad(c.day), Pad(c.hours), Pad(c.minutes), Pad(c.seconds))
  }

  /** The stamp layout, whatever the pieces hold. */
  function Stamp(y: string, mo: string, d: string, h: string, mi: string, se: string): string {
    y + mo + d + "_" + h + mi + se
  }

  /** A four-digit year is written with exactly four digits. */
  lemma FourDigitYear(year: int)
    requires 1000 <= year <= 9999
    ensures |IntToString(year)| == 4
  {
    assert |NatToString(year / 1000)| == 1;
    assert |NatToString(year / 100)| == 2;
    assert |NatToString(year / 10)| == 3;
  }

  lemma ThreeParts(a: string, b: string, c: string)
    ensures var s := a + b + c;
      && s[..|a|] == a
      && s[|a|..|a| + |b|] == b
      && s[|a| + |b|..] == c
  {
  }

  /** Where the pieces of a stamp sit, whatever they contain. */
  lemma StampSlices(y: string, mo: string, d: string, h: string, mi: string, se: string)
    requires |y| == 4 && |mo| == 2 && |d| == 2 && |h| == 2 && |mi| == 2 && |se| == 2
    ensures var ts := Stamp(y, mo, d, h, mi, se);
      && |ts| == 15 && ts[8] == '_'
      && ts[..4] == y && ts[4..6] == mo && ts[6..8] == d
      && ts[9..11] == h && ts[11..13] == mi && ts[13..15] == se
  {
    var date := y + mo + d;
    var time := h + mi + se;
    ThreeParts(y, mo, d);
    ThreeParts(h, mi, se);
    var ts := Stamp(y, mo, d, h, mi, se);
    assert ts == date + "_" + time;
    ThreeParts(date, "_", time);
    assert ts[..4] == date[..4];
    assert ts[4..6] == date[4..6];
    assert ts[6..8] == date[6..];
    assert ts[9..11] == time[..2];
    assert ts[11..13] == time[2..4];
    assert ts[13..15] == time[4..];
  }

  /** Where each field sits in the stamp of a valid clock. */
  lemma TimestampLayout(c: Clock)
    requires ValidClock(c)
    ensures var ts := Timestamp(c);
      && |ts| == 15 && ts[8] == '_'
      && ts[..4] == IntToString(c.year)
      && ts[4..6] == Pad(c.month + 1)
      && ts[6..8] == Pad(c.day)
      && ts[9..11] == Pad(c.hours)
      && ts[11..13] == Pad(c.minutes)
      && ts[13..15] == Pad(c.seconds)
  {
    FourDigitYear(c.year);
    StampSlices(IntToString(c.year), Pad(c.month + 1), Pad(c.day), Pad(c.hours), Pad(c.minutes), Pad(c.seconds));
  }

  /** For a valid clock the stamp has fixed width, and each field reads back
      from its fixed position (the month one-based). */
  lemma TimestampFields(c: Clock)
    requires ValidClock(c)
    ensures var ts := Timestamp(c);
      && |ts| == 15 && ts[8] == '_'
      && ParseInt(ts[..4]) == Some(c.year)
      && ParseInt(ts[4..6]) == Some(c.month + 1)
      && ParseInt(ts[6..8]) == Some(c.day)
      && ParseInt(ts[9..11]) == Some(c.hours)
      && ParseInt(ts[11..13]) == Some(c.minutes)
      && ParseInt(ts[13..15]) == Some(c.seconds)
  {
    TimestampLayout(c);
    IntToStringRoundTrip(c.year);
    PadReadsBack(c.month + 1);
    PadReadsBack(c.day);
    PadReadsBack(c.hours);
    PadReadsBack(c.minutes);
    PadReadsBack(c.seconds);
  }

  const FilePrefix := "PKU树洞#"
  const FileSuffix := ".pdf"

  /** The download name `PKU树洞#<pid>-<timestamp>.pdf`, named after the
      gathered post's own id. */
  function ExportFilename(data: PostWithComments, c: Clock): string {
    NameLayout(IntToString(data.post.pid), Timestamp(c))
  }

  function NameLayout(pidText: string, ts: string): string {
    FilePrefix + pidText + "-" + ts + FileSuffix
  }

  /** Where the pieces of a download name sit, whatever they contain. */
  lemma NameSlices(pidText: string, ts: string)
    requires |ts| == 15
    ensures var f := NameLayout(pidText, ts);
      && |f| == |FilePrefix| + |pidText| + 20
      && f[..|FilePrefix|] == FilePrefix
      && f[|FilePrefix|..|f| - 20] == pidText
      && f[|f| - 20] == '-'
      && f[|f| - 19..|f| - 4] == ts
      && f[|f| - 4..] == FileSuffix
  {
    var tail := "-" + ts + FileSuffix;
    assert NameLayout(pidText, ts) == FilePrefix + pidText + tail;
    ThreeParts(FilePrefix, pidText, tail);
    ThreeParts("-", ts, FileSuffix);
  }

  /** Where the post id and the stamp sit in a download name. */
  lemma ExportFilenameLayout(data: PostWithComments, c: Clock)
    requires ValidClock(c)
    ensures var f := ExportFilename(data, c);
      && |f| == |FilePrefix| + |IntToString(data.post.pid)| + 20
      && f[..|FilePrefix|] == FilePrefix
      && f[|FilePrefix|..|f| - 20] == IntToString(data.post.pid)
      && f[|f| - 20] == '-'
      && f[|f| - 19..|f| - 4] == Timestamp(c)
      && f[|f| - 4..] == FileSuffix
  {
    TimestampLayout(c);
    NameSlices(IntToString(data.post.pid), Timestamp(c));
  }

  /** The post id and the timestamp read back from a download name. */
  lemma ExportFilenameFields(data: PostWithComments, c: Clock)
    requires ValidClock(c)
    ensures var f := ExportFilename(data, c);
      && f[..|FilePrefix|] == FilePrefix
      && f[|f| - 4..] == FileSuffix
      && f[|f| - 20] == '-'
      && ParseInt(f[|FilePrefix|..|f| - 20]) == Some(data.post.pid)
      && f[|f| - 19..|f| - 4] == Timestamp(c)
  {
    ExportFilenameLayout(data, c);
    IntToStringRoundTrip(data.post.pid);
  }

  // ---------------------------------------------------------------- onClick

  /** The page size the export button passes to `fetchAllComments`. */
  const ExportPageSize := 50

  function ExportQuery(pid: int): Query {
    Query(pid, Asc, ExportPageSize)
  }

  datatype ExportError =
    | NoPid              // nothing to export: the click is ignored
    | Fetch(failure: Failure)

  /** `!currentPid`: no export target. */
  predicate NoTarget(currentPid: Option<nat>) {
    currentPid.None? || currentPid.value == 0
  }

  /** The data-gathering half of `onClick`: without a target nothing is
      requested; otherwise `GatherPost` runs for the target. */
  method GatherExport(currentPid: Option<nat>, posts: PostRequester, srv: CommentRequester)
    returns (r: Result<PostWithComments, ExportError>, issued: seq<Request>)
    ensures NoTarget(currentPid) <==> r == Failure(NoPid)
    ensures NoTarget(currentPid) ==> issued == []
    ensures !NoTarget(currentPid) ==> GatherOutcome(currentPid.value, posts, srv, r, issued)
  {
    if NoTarget(currentPid) {
      return Failure(NoPid), [];
    }
    r, issued := GatherPost(currentPid.value, posts, srv);
  }

  /** What gathering the export of post `pid` yields. The post request is
      issued first, then the comment pages in order, at most up to the
      bound, stopping at the first failing page. The aggregate is built
      exactly when both the post and every page succeeded, and holds the
      post, every comment row in page order and the participant list.
      Otherwise the error is, in this order of precedence, the post
      request's rejection, the failing page's failure, or the message of a
      post envelope reporting failure. */
  ghost predicate GatherOutcome(pid: nat, posts: PostRequester, srv: CommentRequester,
                                r: Result<PostWithComments, ExportError>, issued: seq<Request>)
  {
    var q := ExportQuery(pid);
    var reply := posts(PostRequest(pid));
    var bound := PageBound(srv, q);
    var pages := |issued| - 1;
    && |issued| >= 2 && issued[0] == PostRequest(pid)
    && (forall i :: 1 <= i < |issued| ==> issued[i] == CommentsRequest(q, i))
    && pages <= bound
    && (PagesOk(srv, q, bound) ==> pages == bound)
    && (!PagesOk(srv, q, bound) ==> PagesOk(srv, q, pages - 1) && PageOutcome(srv, q, pages).Failure?)
    && r != Failure(NoPid)
    && (r.Success? <==> Unwrap(reply).Success? && PagesOk(srv, q, bound))
    && (r.Success? ==>
          && r.value.post == Unwrap(reply).value
          && r.value.comments == RowsThrough(srv, q, bound)
          && ParticipantList(r.value.comments, r.value.users))
    && (reply.Failure? ==> r == Failure(Fetch(reply.error)))
    && (reply.Success? && !PagesOk(srv, q, bound) ==>
          r == Failure(Fetch(PageOutcome(srv, q, pages).error)))
    && (reply.Success? && !reply.value.Success() && PagesOk(srv, q, bound) ==>
          r == Failure(Fetch(ApiFailure(reply.value.message))))
  }

  /** The requests an export of post `pid` issues: the post, then the
      comment pages in order. */
  lemma ExportRequests(pid: nat, pages: seq<Request>)
    requires pages == PageRequests(ExportQuery(pid), |pages|)
    ensures var issued := [PostRequest(pid)] + pages;
      forall i :: 1 <= i < |issued| ==> issued[i] == CommentsRequest(ExportQuery(pid), i)
  {
    var issued := [PostRequest(pid)] + pages;
    forall i | 1 <= i < |issued|
      ensures issued[i] == CommentsRequest(ExportQuery(pid), i)
    {
      assert issued[i] == pages[i - 1];
    }
  }

  /** Once the comment aggregation has run, an error chosen by precedence
      (post rejection, then page failure, then post envelope) or an
      aggregate of the post and the rows gives the outcome `GatherOutcome`
      describes. */
  lemma GatherSettled(pid: nat, posts: PostRequester, srv: CommentRequester,
                      c: Result<seq<Comment>, Failure>, pages: seq<Request>,
                      r: Result<PostWithComments, ExportError>)
    requires FetchOutcome(srv, ExportQuery(pid), c, pages)
    requires var reply := posts(PostRequest(pid));
      && (reply.Failure? ==> r == Failure(Fetch(reply.error)))
      && (reply.Success? && c.Failure? ==> r == Failure(Fetch(c.error)))
      && (reply.Success? && c.Success? && !reply.value.Success() ==>
            r == Failure(Fetch(ApiFailure(reply.value.message))))
      && (reply.Success? && c.Success? && reply.value.Success() ==>
            && r.Success? && r.value.post == reply.value.data && r.value.comments == c.value
            && ParticipantList(r.value.comments, r.value.users))
    ensures GatherOutcome(pid, posts, srv, r, [PostRequest(pid)] + pages)
  {
    ExportRequests(pid, pages);
  }

  /** The export of a known post: the post is requested, then every comment
      page; a rejected post request fails first, then a failed page, then a
      post envelope reporting failure. */
  method GatherPost(pid: nat, posts: PostRequester, srv: CommentRequester)
    returns (r: Result<PostWithComments, ExportError>, issued: seq<Request>)
    ensures GatherOutcome(pid, posts, srv, r, issued)
  {
    var postReply := posts(PostRequest(pid));
    var comments, pages := FetchAllComments(srv, ExportQuery(pid));
    issued := [PostRequest(pid)] + pages;
    var post := Unwrap(postReply);
    if postReply.Failure? {
      r := Failure(Fetch(postReply.error));
    } else if comments.Failure? {
      r := Failure(Fetch(comments.error));
    } else if post.Failure? {
      r := Failure(Fetch(post.error));
    } else {
      var users := Participants(comments.value);
      r := Success(PostWithComments(post.value, comments.value, users));
    }
    GatherSettled(pid, posts, srv, comments, pages, r);
  }
}
