/** The adapter for the `rofi` chooser (src/rofi.rs): the options and their
    command-line form, the entry lines written to rofi's standard input, and
    the decoding of rofi's exit status and output into a `RofiResult`.
    Spawning and waiting are left to the caller: rofi's answer (exit status
    and standard output) is an input of `Run`. */
module Rofi {
  import opened Wrappers
  import opened Strings
  import Cliphist
  import Cache

  /** The largest `usize` on the 64-bit targets the program runs on. */
  const USIZE_MAX: nat := 0xFFFF_FFFF_FFFF_FFFF

  /** A custom key binding: rofi's `-kb-custom-<key>` slot, the key chord,
      and a description shown to the user (`KbCustom::new`). */
  datatype KbCustom = KbCustom(key: int, shortcut: string, description: string)

  /** `RofiOptions`; `format` is private in the source and only ever `"i"`. */
  datatype RofiOptions = RofiOptions(
    format: Option<string>,
    caseInsensitive: bool,
    customKbs: seq<KbCustom>,
    dmenu: bool,
    mesg: Option<string>,
    noCustom: bool,
    prompt: Option<string>,
    selectedRow: nat,
    themeStr: seq<string>)

  /** `RofiOptions::default`: dmenu mode, case-insensitive, no free-text
      entry, rofi answers with the index of the chosen row, first row
      selected, no bindings and no theme overrides. */
  function DefaultOptions(): (o: RofiOptions)
    ensures o.caseInsensitive && o.dmenu && o.noCustom
    ensures o.format == Some("i") && o.selectedRow == 0
    ensures o.customKbs == [] && o.themeStr == [] && o.prompt == None && o.mesg == None
  {
    RofiOptions(Some("i"), true, [], true, None, true, None, 0, [])
  }

  /** `RofiOptions::new`: the defaults, with prompt, message, bindings and
      theme strings set. */
  function NewOptions(prompt: string, mesg: string, customKbs: seq<KbCustom>, themeStr: seq<string>): (o: RofiOptions)
    ensures o == DefaultOptions().(prompt := Some(prompt), mesg := Some(mesg), customKbs := customKbs, themeStr := themeStr)
  {
    RofiOptions(Some("i"), true, customKbs, true, Some(mesg), true, Some(prompt), 0, themeStr)
  }

  // ---------------------------------------------------------------------------
  // The argument vector (`From<&RofiOptions> for Vec<String>`)

  function KbFlag(key: int): string { "-kb-custom-" + IntToString(key) }

  /** Everything before the bindings: the selected row, then the flags that
      are set, then the output format. */
  function HeadArgs(o: RofiOptions): seq<string>
  {
    ["-selected-row", NatToString(o.selectedRow)]
    + (if o.dmenu then ["-dmenu"] else [])
    + (if o.caseInsensitive then ["-i"] else [])
    + (if o.noCustom then ["-no-custom"] else [])
    + (if o.format.Some? then ["-format", o.format.value] else [])
  }

  /** One `-kb-custom-<key> <shortcut>` pair per binding. */
  function KbArgs(kbs: seq<KbCustom>): seq<string>
    decreases |kbs|
  {
    if |kbs| == 0 then []
    else KbArgs(kbs[..|kbs| - 1]) + [KbFlag(kbs[|kbs| - 1].key), kbs[|kbs| - 1].shortcut]
  }

  const MESG_OPEN := "<span size='small' alpha='70%'>"
  const MESG_CLOSE := "</span>"

  function MesgItem(kb: KbCustom): string
  {
    "<b>" + kb.shortcut + "</b>: " + kb.description + " | "
  }

  function MesgItems(kbs: seq<KbCustom>): string
    decreases |kbs|
  {
    if |kbs| == 0 then "" else MesgItems(kbs[..|kbs| - 1]) + MesgItem(kbs[|kbs| - 1])
  }

  /** The help line listing every binding. */
  function Mesg(kbs: seq<KbCustom>): string
  {
    MESG_OPEN + MesgItems(kbs) + MESG_CLOSE
  }

  /** One `-theme-str <s>` pair per theme string. */
  function ThemeArgs(themes: seq<string>): seq<string>
    decreases |themes|
  {
    if |themes| == 0 then []
    else ThemeArgs(themes[..|themes| - 1]) + ["-theme-str", themes[|themes| - 1]]
  }

  /** The arguments rofi gets for a non-empty entry list. The `mesg` field
      plays no part: the message is generated from the bindings. */
  function Args(o: RofiOptions): seq<string>
  {
    HeadArgs(o)
    + KbArgs(o.customKbs)
    + (if |o.customKbs| > 0 then ["-mesg", Mesg(o.customKbs)] else [])
    + (if o.prompt.Some? then ["-p", o.prompt.value] else [])
    + ThemeArgs(o.themeStr)
  }

  /** Builds the argument vector push by push, as the source does. */
  method ToArgs(o: RofiOptions) returns (args: seq<string>)
    ensures args == Args(o)
  {
    args := ["-selected-row", NatToString(o.selectedRow)];
    if o.dmenu {
      args := args + ["-dmenu"];
    }
    if o.caseInsensitive {
      args := args + ["-i"];
    }
    if o.noCustom {
      args := args + ["-no-custom"];
    }
    if o.format.Some? {
      args := args + ["-format", o.format.value];
    }
    assert args == HeadArgs(o);
    args := PushBindings(args, o.customKbs);
    ghost var withBindings := args;
    if |o.customKbs| > 0 {
      var mesg := BuildMesg(o.customKbs);
      args := args + ["-mesg", mesg];
    }
    ghost var withMesg := args;
    assert withMesg == withBindings + (if |o.customKbs| > 0 then ["-mesg", Mesg(o.customKbs)] else []);
    if o.prompt.Some? {
      args := args + ["-p", o.prompt.value];
    }
    assert args == withMesg + (if o.prompt.Some? then ["-p", o.prompt.value] else []);
    args := PushThemes(args, o.themeStr);
  }

  method PushBindings(before: seq<string>, kbs: seq<KbCustom>) returns (args: seq<string>)
    ensures args == before + KbArgs(kbs)
  {
    args := before;
    var i := 0;
    while i < |kbs|
      invariant 0 <= i <= |kbs|
      invariant args == before + KbArgs(kbs[..i])
    {
      assert kbs[..i + 1][..i] == kbs[..i];
      args := args + [KbFlag(kbs[i].key), kbs[i].shortcut];
      i := i + 1;
    }
    assert kbs[..i] == kbs;
  }

  method BuildMesg(kbs: seq<KbCustom>) returns (mesg: string)
    ensures mesg == Mesg(kbs)
  {
    mesg := MESG_OPEN;
    var j := 0;
    while j < |kbs|
      invariant 0 <= j <= |kbs|
      invariant mesg == MESG_OPEN + MesgItems(kbs[..j])
    {
      assert kbs[..j + 1][..j] == kbs[..j];
      mesg := mesg + MesgItem(kbs[j]);
      j := j + 1;
    }
    assert kbs[..j] == kbs;
    mesg := mesg + MESG_CLOSE;
  }

  method PushThemes(before: seq<string>, themes: seq<string>) returns (args: seq<string>)
    ensures args == before + ThemeArgs(themes)
  {
    args := before;
    var k := 0;
    while k < |themes|
      invariant 0 <= k <= |themes|
      invariant args == before + ThemeArgs(themes[..k])
    {
      assert themes[..k + 1][..k] == themes[..k];
      args := args + ["-theme-str", themes[k]];
      k := k + 1;
    }
    assert themes[..k] == themes;
  }

  lemma {:induction false} KbArgsLength(kbs: seq<KbCustom>)
    ensures |KbArgs(kbs)| == 2 * |kbs|
    decreases |kbs|
  {
    if |kbs| > 0 {
      KbArgsLength(kbs[..|kbs| - 1]);
    }
  }

  /** The bindings appear as flag/chord pairs, in binding order. */
  lemma {:induction false} KbArgsShape(kbs: seq<KbCustom>)
    ensures |KbArgs(kbs)| == 2 * |kbs|
    ensures forall i :: 0 <= i < |kbs| ==>
      KbArgs(kbs)[2 * i] == KbFlag(kbs[i].key) && KbArgs(kbs)[2 * i + 1] == kbs[i].shortcut
    decreases |kbs|
  {
    KbArgsLength(kbs);
    if |kbs| > 0 {
      var init := kbs[..|kbs| - 1];
      var last := kbs[|kbs| - 1];
      KbArgsShape(init);
      var before := KbArgs(init);
      var args := KbArgs(kbs);
      assert args == before + [KbFlag(last.key), last.shortcut];
      forall i | 0 <= i < |kbs|
        ensures args[2 * i] == KbFlag(kbs[i].key) && args[2 * i + 1] == kbs[i].shortcut
      {
        var j := 2 * i;
        if i < |init| {
          assert j + 1 < |before|;
          assert args[j] == before[j] && args[j + 1] == before[j + 1];
          assert init[i] == kbs[i];
        } else {
          assert j == |before|;
        }
      }
    }
  }

  /** The theme strings appear verbatim, each behind `-theme-str`, in order. */
  lemma {:induction false} ThemeArgsShape(themes: seq<string>)
    ensures |ThemeArgs(themes)| == 2 * |themes|
    ensures forall i :: 0 <= i < |themes| ==>
      ThemeArgs(themes)[2 * i] == "-theme-str" && ThemeArgs(themes)[2 * i + 1] == themes[i]
    decreases |themes|
  {
    if |themes| > 0 {
      var init := themes[..|themes| - 1];
      ThemeArgsShape(init);
      assert forall i :: 0 <= i < |init| ==> init[i] == themes[i];
    }
  }

  /** The vector opens with the selected row in decimal. */
  lemma ArgsStartWithSelectedRow(o: RofiOptions)
    ensures |Args(o)| >= 2 && Args(o)[0] == "-selected-row" && Args(o)[1] == NatToString(o.selectedRow)
    ensures DigitsValue(Args(o)[1]) == o.selectedRow
  {
    NatToStringValue(o.selectedRow);
  }

  /** No binding flag is `-mesg`: they all start with `-k`. */
  lemma KbFlagNotMesg(key: int)
    ensures KbFlag(key) != "-mesg"
  {
    assert KbFlag(key)[1] == 'k' && "-mesg"[1] == 'm';
  }

  lemma {:induction false} NoMesgFlagInBindings(kbs: seq<KbCustom>)
    requires forall i :: 0 <= i < |kbs| ==> kbs[i].shortcut != "-mesg"
    ensures "-mesg" !in KbArgs(kbs)
    decreases |kbs|
  {
    if |kbs| > 0 {
      var init := kbs[..|kbs| - 1];
      var last := kbs[|kbs| - 1];
      NoMesgFlagInBindings(init);
      KbFlagNotMesg(last.key);
      var pair := [KbFlag(last.key), last.shortcut];
      assert "-mesg" !in pair;
      assert KbArgs(kbs) == KbArgs(init) + pair;
    }
  }

  lemma {:induction false} NoMesgFlagInThemes(themes: seq<string>)
    requires "-mesg" !in themes
    ensures "-mesg" !in ThemeArgs(themes)
    decreases |themes|
  {
    if |themes| > 0 {
      var init := themes[..|themes| - 1];
      assert forall t :: t in init ==> t in themes;
      NoMesgFlagInThemes(init);
      assert themes[|themes| - 1] in themes;
    }
  }

  /** When there are bindings, the help line follows them directly. */
  lemma MesgFollowsBindings(o: RofiOptions)
    requires |o.customKbs| > 0
    ensures var i := |HeadArgs(o)| + 2 * |o.customKbs|;
      i + 1 < |Args(o)| && Args(o)[i] == "-mesg" && Args(o)[i + 1] == Mesg(o.customKbs)
  {
    KbArgsShape(o.customKbs);
    var front := HeadArgs(o) + KbArgs(o.customKbs);
    var rest := (if o.prompt.Some? then ["-p", o.prompt.value] else []) + ThemeArgs(o.themeStr);
    assert Args(o) == front + ["-mesg", Mesg(o.customKbs)] + rest;
  }

  /** The fixed flags and the selected row are never `-mesg`. */
  lemma NoMesgFlagInHead(o: RofiOptions)
    requires o.format != Some("-mesg")
    ensures "-mesg" !in HeadArgs(o)
  {
    assert NatToString(o.selectedRow) != "-mesg" by {
      var d := NatToString(o.selectedRow);
      assert IsDigit(d[0]);
      assert "-mesg"[0] == '-';
    }
  }

  /** `-mesg` is passed exactly when there are bindings, provided no
      user-supplied string is itself `-mesg`. */
  lemma MesgIffBindings(o: RofiOptions)
    requires o.format != Some("-mesg") && o.prompt != Some("-mesg")
    requires forall i :: 0 <= i < |o.customKbs| ==> o.customKbs[i].shortcut != "-mesg"
    requires "-mesg" !in o.themeStr
    ensures "-mesg" in Args(o) <==> |o.customKbs| > 0
  {
    var kbs := o.customKbs;
    var front := HeadArgs(o) + KbArgs(kbs);
    var tail := (if o.prompt.Some? then ["-p", o.prompt.value] else []) + ThemeArgs(o.themeStr);
    var middle := if |kbs| > 0 then ["-mesg", Mesg(kbs)] else [];
    assert "-mesg" !in front by {
      NoMesgFlagInHead(o);
      NoMesgFlagInBindings(kbs);
    }
    assert "-mesg" !in tail by {
      NoMesgFlagInThemes(o.themeStr);
    }
    assert Args(o) == front + middle + tail;
    assert "-mesg" in middle <==> |kbs| > 0;
  }

  /** The `mesg` option plays no part in the arguments. */
  lemma ArgsIgnoreMesg(o: RofiOptions, otherMesg: Option<string>)
    ensures Args(o.(mesg := otherMesg)) == Args(o)
  {
    assert HeadArgs(o.(mesg := otherMesg)) == HeadArgs(o);
  }

  /** The default options give the bare dmenu invocation. */
  lemma DefaultArgs()
    ensures Args(DefaultOptions()) == ["-selected-row", "0", "-dmenu", "-i", "-no-custom", "-format", "i"]
  {
    assert NatToString(0) == "0";
  }

  // ---------------------------------------------------------------------------
  // The empty-list invocation

  const NO_ENTRIES := "No clipboard entries to show"

  function EmptyMessage(prompt: Option<string>): string
  {
    match prompt
    case Some(p) => "<b>" + p + "</b>: " + NO_ENTRIES
    case None => NO_ENTRIES
  }

  /** With no entries rofi only shows an error message. */
  function EmptyArgs(o: RofiOptions): seq<string>
  {
    ["-e", EmptyMessage(o.prompt), "-markup"]
  }

  // ---------------------------------------------------------------------------
  // Entries as rofi sees them (`RofiEntry for ClipHistEntry`)

  /** `RofiEntry::id`: the store id, for both kinds. */
  function PickerId(e: Cliphist.Entry): string { e.id }

  /** `RofiEntry::label`: the title of a text, `<id>.<type>` for an image. */
  function Label(e: Cliphist.Entry): string
  {
    match e
    case Text(_, title) => title
    case Image(id, ct) => id + "." + ct
  }

  /** `RofiEntry::icon`: none for a text, `<id>.<type>` for an image. */
  function Icon(e: Cliphist.Entry): Option<string>
  {
    match e
    case Text(_, _) => None
    case Image(id, ct) => Some(id + "." + ct)
  }

  /** An image is shown by its cache key, both as label and as icon, and the
      id rofi hands back is the store id. */
  lemma EntryAccessors(e: Cliphist.Entry)
    ensures PickerId(e) == e.id
    ensures e.Image? ==> Icon(e) == Some(Label(e)) && Label(e) == Cliphist.CacheKey(e)
    ensures e.Text? ==> Icon(e) == None && Label(e) == e.title
  {
  }

  // ---------------------------------------------------------------------------
  // Standard input: one line per entry

  const ICON_PREFIX := "\0icon\U{1F}"

  /** The line for one entry: the label, then for an entry with an icon a
      NUL, `icon`, a unit separator and the icon reference (the cached file's
      path when the cache holds it, the raw reference otherwise), then `\n`. */
  function EntryLine(e: Cliphist.Entry, cached: set<string>, dir: string): string
  {
    Label(e)
    + (match Icon(e)
       case None => ""
       case Some(icon) => ICON_PREFIX + (if icon in cached then Cache.Join(dir, icon) else icon))
    + "\n"
  }

  /** Everything written to rofi's standard input, entries in order. */
  function Encoded(entries: seq<Cliphist.Entry>, cached: set<string>, dir: string): string
    decreases |entries|
  {
    if |entries| == 0 then "" else EntryLine(entries[0], cached, dir) + Encoded(entries[1..], cached, dir)
  }

  lemma {:induction false} EncodedAppend(entries: seq<Cliphist.Entry>, e: Cliphist.Entry, cached: set<string>, dir: string)
    ensures Encoded(entries + [e], cached, dir) == Encoded(entries, cached, dir) + EntryLine(e, cached, dir)
    decreases |entries|
  {
    if |entries| == 0 {
      assert Encoded([e], cached, dir) == EntryLine(e, cached, dir) + Encoded([], cached, dir);
    } else {
      assert (entries + [e])[1..] == entries[1..] + [e];
      EncodedAppend(entries[1..], e, cached, dir);
    }
  }

  /** The bytes of one entry's line, built piece by piece. */
  method WriteEntry(e: Cliphist.Entry, cache: Cache.SimpleCache) returns (line: string)
    ensures line == EntryLine(e, cache.files.Keys, cache.dir)
  {
    line := Label(e);
    match Icon(e) {
      case Some(icon) =>
        if cache.Exists(icon) {
          line := line + ICON_PREFIX + cache.PathOf(icon);
        } else {
          line := line + ICON_PREFIX + icon;
        }
      case None =>
    }
    line := line + "\n";
  }

  /** Writes the entry lines one after another, in entry order. */
  method WriteEntries(entries: seq<Cliphist.Entry>, cache: Cache.SimpleCache) returns (stdin: string)
    ensures stdin == Encoded(entries, cache.files.Keys, cache.dir)
  {
    stdin := "";
    var i := 0;
    while i < |entries|
      invariant 0 <= i <= |entries|
      invariant stdin == Encoded(entries[..i], cache.files.Keys, cache.dir)
    {
      var line := WriteEntry(entries[i], cache);
      EncodedAppend(entries[..i], entries[i], cache.files.Keys, cache.dir);
      assert entries[..i + 1] == entries[..i] + [entries[i]];
      stdin := stdin + line;
      i := i + 1;
    }
    assert entries[..i] == entries;
  }

  /** The line for an entry, without its final newline. */
  function Row(e: Cliphist.Entry, cached: set<string>, dir: string): string
  {
    var line := EntryLine(e, cached, dir);
    line[..|line| - 1]
  }

  predicate Displayable(e: Cliphist.Entry, dir: string)
  {
    '\n' !in Label(e) && '\0' !in Label(e) && '\n' !in dir
  }

  /** Rofi, reading its input line by line, sees exactly one row per entry,
      in entry order. */
  lemma {:induction false} RowsOfEncoding(entries: seq<Cliphist.Entry>, cached: set<string>, dir: string)
    requires forall i :: 0 <= i < |entries| ==> Displayable(entries[i], dir)
    ensures Split(Encoded(entries, cached, dir), '\n') == Rows(entries, cached, dir) + [""]
    decreases |entries|
  {
    if |entries| > 0 {
      var more := entries[1..];
      SplitFirstLine(entries, cached, dir);
      RowsOfEncoding(more, cached, dir);
      RowsCons(entries, cached, dir);
      AppendAssoc([Row(entries[0], cached, dir)], Rows(more, cached, dir), [""]);
    }
  }

  /** The rows of the entries, in order. */
  function Rows(entries: seq<Cliphist.Entry>, cached: set<string>, dir: string): seq<string>
  {
    seq(|entries|, i requires 0 <= i < |entries| => Row(entries[i], cached, dir))
  }

  lemma RowsCons(entries: seq<Cliphist.Entry>, cached: set<string>, dir: string)
    requires |entries| > 0
    ensures Rows(entries, cached, dir) == [Row(entries[0], cached, dir)] + Rows(entries[1..], cached, dir)
  {
  }

  lemma SplitFirstLine(entries: seq<Cliphist.Entry>, cached: set<string>, dir: string)
    requires |entries| > 0 && Displayable(entries[0], dir)
    ensures Split(Encoded(entries, cached, dir), '\n')
            == [Row(entries[0], cached, dir)] + Split(Encoded(entries[1..], cached, dir), '\n')
  {
    var row := Row(entries[0], cached, dir);
    var tail := Encoded(entries[1..], cached, dir);
    RowShape(entries[0], cached, dir);
    assert Encoded(entries, cached, dir) == row + ['\n'] + tail;
    SplitAfterPiece(row, tail, '\n');
  }

  /** The row of an entry starts with its label, ended by the NUL of the
      icon suffix or by the end of the row, and holds no newline. */
  lemma RowShape(e: Cliphist.Entry, cached: set<string>, dir: string)
    requires Displayable(e, dir)
    ensures EntryLine(e, cached, dir) == Row(e, cached, dir) + "\n"
    ensures '\n' !in Row(e, cached, dir)
    ensures Label(e) <= Row(e, cached, dir)
    ensures |Row(e, cached, dir)| == |Label(e)| || Row(e, cached, dir)[|Label(e)|] == '\0'
  {
    var line := EntryLine(e, cached, dir);
    var row := Row(e, cached, dir);
    match Icon(e)
    case None =>
      assert row == Label(e);
    case Some(icon) =>
      var ref := if icon in cached then Cache.Join(dir, icon) else icon;
      assert row == Label(e) + ICON_PREFIX + ref;
      assert e.Image?;
      assert icon == Label(e);
      assert '\n' !in ref;
  }

  // ---------------------------------------------------------------------------
  // Decoding rofi's answer

  /** How the rofi process ended. */
  datatype ExitStatus = Success | Code(code: int) | Signal(signal: int) | Stopped(signal: int)

  /** `ExitStatus::success`: a normal exit with code 0. */
  predicate Succeeded(s: ExitStatus) { s.Success? || s == Code(0) }

  datatype RofiResult =
    | Cancel
    | Empty
    | Keyboard(key: int, id: nat)
    | Selection(id: nat)
    | SignalResult(key: int)

  /** `str::parse::<usize>`: an optional `+`, then one or more ASCII digits,
      with a value that fits in a `usize`. */
  function ParseUsize(s: string): (r: Option<nat>)
    ensures r.Some? ==> r.value <= USIZE_MAX
    ensures var d := if |s| > 0 && s[0] == '+' then s[1..] else s;
      r.Some? <==> |d| > 0 && AllDigits(d) && DigitsValue(d) <= USIZE_MAX
    ensures var d := if |s| > 0 && s[0] == '+' then s[1..] else s;
      r.Some? ==> AllDigits(d) && r.value == DigitsValue(d)
  {
    var digits := if |s| > 0 && s[0] == '+' then s[1..] else s;
    if |digits| == 0 || !AllDigits(digits) || DigitsValue(digits) > USIZE_MAX then None
    else Some(DigitsValue(digits))
  }

  /** The decimal form of an index parses back to that index. */
  lemma ParseUsizeRoundTrip(n: nat)
    requires n <= USIZE_MAX
    ensures ParseUsize(NatToString(n)) == Some(n)
    ensures ParseUsize("+" + NatToString(n)) == Some(n)
  {
    NatToStringValue(n);
    var s := NatToString(n);
    assert s[0] != '+' by { assert IsDigit(s[0]); }
    assert ("+" + s)[1..] == s;
  }

  /** Drops one trailing newline, if there is one. */
  function StripNewline(s: string): string
  {
    if |s| > 0 && s[|s| - 1] == '\n' then s[..|s| - 1] else s
  }

  /** The error of an answer that is not a row index. */
  const USIZE_PARSE_FAILED := ProtocolError("parsing usize")

  /** The decoding at the end of `Rofi::run`. */
  function DecodeResult(status: ExitStatus, stdout: string): (r: Result<RofiResult>)
    ensures r.Err? <==> (!status.Signal? && !status.Stopped?
                         && StripNewline(stdout) != "" && ParseUsize(StripNewline(stdout)).None?)
  {
    var buffer := StripNewline(stdout);
    if Succeeded(status) then
      if buffer == "" then Ok(Empty)
      else match ParseUsize(buffer)
        case Some(id) => Ok(Selection(id))
        case None => Err(USIZE_PARSE_FAILED)
    else match status
      case Code(c) =>
        if buffer == "" then Ok(Cancel)
        else (match ParseUsize(buffer)
          case Some(id) => Ok(Keyboard(c, id))
          case None => Err(USIZE_PARSE_FAILED))
      case Signal(sig) => Ok(SignalResult(sig))
      case Stopped(sig) => Ok(SignalResult(sig))
  }

  /** The answer cases, for any output: a signal or a stop carries its
      number whatever was printed; no output (after one trailing newline
      is dropped) is Empty on success and Cancel on a non-zero code; an
      output that parses as an index is a selection on success and a key
      action with the exit code otherwise. */
  lemma DecodeResultCases(status: ExitStatus, stdout: string)
    ensures status.Signal? || status.Stopped? ==> DecodeResult(status, stdout) == Ok(SignalResult(status.signal))
    ensures StripNewline(stdout) == "" && Succeeded(status) ==> DecodeResult(status, stdout) == Ok(Empty)
    ensures StripNewline(stdout) == "" && status.Code? && status.code != 0 ==> DecodeResult(status, stdout) == Ok(Cancel)
    ensures ParseUsize(StripNewline(stdout)).Some? && Succeeded(status) ==>
      DecodeResult(status, stdout) == Ok(Selection(ParseUsize(StripNewline(stdout)).value))
    ensures ParseUsize(StripNewline(stdout)).Some? && status.Code? && status.code != 0 ==>
      DecodeResult(status, stdout) == Ok(Keyboard(status.code, ParseUsize(StripNewline(stdout)).value))
  {
  }

  /** What rofi prints when a row is chosen, its index and a newline,
      decodes to that index. */
  lemma DecodeChosenRow(status: ExitStatus, n: nat)
    requires n <= USIZE_MAX
    ensures Succeeded(status) ==> DecodeResult(status, NatToString(n) + "\n") == Ok(Selection(n))
    ensures status.Code? && status.code != 0 ==> DecodeResult(status, NatToString(n) + "\n") == Ok(Keyboard(status.code, n))
  {
    ParseUsizeRoundTrip(n);
    assert StripNewline(NatToString(n) + "\n") == NatToString(n);
    DecodeResultCases(status, NatToString(n) + "\n");
  }

  // ---------------------------------------------------------------------------
  // One invocation

  /** What rofi is given: its arguments and its standard input. */
  datatype PickerCall = PickerCall(args: seq<string>, stdin: string)

  /** `Rofi::run`: the arguments (the error display when there are no
      entries), the entry lines, and the decoded answer `status`/`stdout`. */
  method Run(entries: seq<Cliphist.Entry>, options: RofiOptions, cache: Cache.SimpleCache,
             status: ExitStatus, stdout: string)
    returns (call: PickerCall, r: Result<RofiResult>)
    ensures call.args == if |entries| == 0 then EmptyArgs(options) else Args(options)
    ensures call.stdin == Encoded(entries, cache.files.Keys, cache.dir)
    ensures |entries| == 0 ==> call.stdin == ""
    ensures r == DecodeResult(status, stdout)
  {
    var args;
    if |entries| == 0 {
      args := EmptyArgs(options);
    } else {
      args := ToArgs(options);
    }
    var stdin := WriteEntries(entries, cache);
    call := PickerCall(args, stdin);
    r := DecodeResult(status, stdout);
  }
}
