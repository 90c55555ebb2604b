/** The clipboard-history mode (src/rofi/cliphist_mode.rs): two lists of
    history entries, texts and images, each with its own chooser options;
    the reaction to each chooser answer; and the reconciliation of the
    thumbnail cache with the image entries of a fresh history listing.

    The behaviour is specified by pure functions over values (`Initial`,
    `Next`, `Sync`, `Step`, `Drive`); the class `ClipHistMode` at the end
    does the same work step by step on its fields and on the store, cache
    and clipboard objects, and its methods are proved against them. */
module CliphistMode {
  import opened Wrappers
  import Strings
  import Cliphist
  import Cache
  import Rofi
  import Clipboard

  /** Which list the chooser shows. */
  datatype Mode = Text | Image

  /** One configured action: a title, a key chord and a description. */
  datatype ModeConfig = ModeConfig(title: string, shortcut: string, description: string)

  datatype ClipHistModeConfig = ClipHistModeConfig(
    textMode: ModeConfig,
    imageMode: ModeConfig,
    deleteMode: ModeConfig,
    deletePreviousMode: ModeConfig,
    deleteNextMode: ModeConfig)

  // ---------------------------------------------------------------------------
  // Per-mode options

  /** `title`: the prompt of each list. */
  function Title(m: Mode): string
  {
    match m
    case Text => "Texts"
    case Image => "Images"
  }

  /** `theme`: one column of text rows, or a three-by-three grid of icons. */
  function Theme(m: Mode): seq<string>
  {
    match m
    case Text => TEXT_THEME
    case Image => IMAGE_THEME
  }

  const TEXT_THEME := [
    "element { children: [element-text]; orientation: vertical; }",
    "listview { layout: vertical; }"]

  const IMAGE_THEME := [
    "element { children: [element-icon]; orientation: vertical;}",
    "element-icon { size: 228px; padding: 0px; }",
    "listview { layout: vertical; lines: 3; columns: 3; fixed-height: true; fixed-columns: true; }"]

  /** The custom bindings of a list: slot 1 switches from the text list to
      the images, slot 2 from the image list to the texts, and slots 3, 4 and
      5 delete (the row, the rows above it, the rows below it) in both. */
  function Bindings(m: Mode, config: ClipHistModeConfig): seq<Rofi.KbCustom>
  {
    [SwitchBinding(m, config),
     Rofi.KbCustom(3, config.deleteMode.shortcut, config.deleteMode.description),
     Rofi.KbCustom(4, config.deletePreviousMode.shortcut, config.deletePreviousMode.description),
     Rofi.KbCustom(5, config.deleteNextMode.shortcut, config.deleteNextMode.description)]
  }

  /** The binding that switches to the other list. */
  function SwitchBinding(m: Mode, config: ClipHistModeConfig): Rofi.KbCustom
  {
    match m
    case Text => Rofi.KbCustom(1, config.imageMode.shortcut, config.imageMode.description)
    case Image => Rofi.KbCustom(2, config.textMode.shortcut, config.textMode.description)
  }

  /** The options each list is shown with: the title as prompt, an empty
      message, the list's bindings and its theme. */
  function ModeOptions(m: Mode, config: ClipHistModeConfig): Rofi.RofiOptions
  {
    Rofi.NewOptions(Title(m), "", Bindings(m, config), Theme(m))
  }

  /** The chooser's convention, not part of this program: custom binding
      slot N ends the chooser with exit code 9 + N. */
  const CUSTOM_EXIT_BASE := 9

  function ExitCode(kb: Rofi.KbCustom): int { CUSTOM_EXIT_BASE + kb.key }

  /** The exit codes the mode reacts to. */
  const SHOW_IMAGES := 10
  const SHOW_TEXTS := 11
  const DELETE_ONE := 12
  const DELETE_BEFORE := 13
  const DELETE_AFTER := 14

  /** Each list's options: its own title as prompt, the first row selected,
      its theme, and four bindings, the first of which switches to the other
      list. */
  lemma ModeOptionsShape(m: Mode, config: ClipHistModeConfig)
    ensures ModeOptions(m, config).prompt == Some(Title(m))
    ensures ModeOptions(m, config).selectedRow == 0
    ensures ModeOptions(m, config).themeStr == Theme(m)
    ensures |ModeOptions(m, config).customKbs| == 4
    ensures m == Text ==> Title(m) == "Texts" && ModeOptions(m, config).customKbs[0].key == 1
    ensures m == Image ==> Title(m) == "Images" && ModeOptions(m, config).customKbs[0].key == 2
    ensures forall i :: 1 <= i < 4 ==> ModeOptions(m, config).customKbs[i].key == i + 2
  {
    var kbs := Bindings(m, config);
    assert ModeOptions(m, config).customKbs == kbs;
    assert |kbs| == 4;
  }

  /** The help line of the bindings is on each list's command line, right
      after the binding pairs, although the message option itself is empty. */
  lemma ModeOptionsMesg(m: Mode, config: ClipHistModeConfig)
    ensures ModeOptions(m, config).mesg == Some("")
    ensures var o := ModeOptions(m, config); var i := |Rofi.HeadArgs(o)| + 2 * |o.customKbs|;
      i + 1 < |Rofi.Args(o)| && Rofi.Args(o)[i] == "-mesg" && Rofi.Args(o)[i + 1] == Rofi.Mesg(Bindings(m, config))
    ensures "-mesg" in Rofi.Args(ModeOptions(m, config))
  {
    var o := ModeOptions(m, config);
    assert |o.customKbs| == 4;
    Rofi.MesgFollowsBindings(o);
  }

  /** Under the chooser's convention every binding of a list ends the chooser
      with a code the mode handles, and the switch binding of each list
      leads to the other list. */
  lemma BindingCodes(m: Mode, config: ClipHistModeConfig)
    ensures forall kb :: kb in Bindings(m, config) ==> SHOW_IMAGES <= ExitCode(kb) <= DELETE_AFTER
    ensures m == Text ==> ExitCode(Bindings(m, config)[0]) == SHOW_IMAGES
    ensures m == Image ==> ExitCode(Bindings(m, config)[0]) == SHOW_TEXTS
    ensures ExitCode(Bindings(m, config)[1]) == DELETE_ONE
    ensures ExitCode(Bindings(m, config)[2]) == DELETE_BEFORE
    ensures ExitCode(Bindings(m, config)[3]) == DELETE_AFTER
  {
  }

  // ---------------------------------------------------------------------------
  // The session: both lists and the current mode

  /** `RofiState`: a list and the options it is shown with. */
  datatype RofiState = RofiState(entries: seq<Cliphist.Entry>, options: Rofi.RofiOptions)

  datatype Session = Session(txt: RofiState, img: RofiState, mode: Mode)
  {
    function StateOf(m: Mode): RofiState
    {
      match m
      case Text => txt
      case Image => img
    }

    /** The list on screen. */
    function Current(): RofiState { StateOf(mode) }

    /** The session with the list on screen replaced. */
    function WithCurrent(st: RofiState): (s: Session)
      ensures s.mode == mode && s.Current() == st
      ensures forall m :: m != mode ==> s.StateOf(m) == StateOf(m)
    {
      match mode
      case Text => this.(txt := st)
      case Image => this.(img := st)
    }
  }

  /** The text entries, in listing order. */
  function Texts(es: seq<Cliphist.Entry>): (r: seq<Cliphist.Entry>)
    ensures forall i :: 0 <= i < |r| ==> r[i].Text?
    decreases |es|
  {
    if |es| == 0 then []
    else (if es[0].Text? then [es[0]] else []) + Texts(es[1..])
  }

  /** The image entries, in listing order. */
  function Images(es: seq<Cliphist.Entry>): (r: seq<Cliphist.Entry>)
    ensures forall i :: 0 <= i < |r| ==> r[i].Image?
    decreases |es|
  {
    if |es| == 0 then []
    else (if es[0].Image? then [es[0]] else []) + Images(es[1..])
  }

  /** The partition loses nothing and invents nothing: together the two
      lists hold every entry exactly as often as the listing does. */
  lemma {:induction false} PartitionComplete(es: seq<Cliphist.Entry>)
    ensures multiset(Texts(es)) + multiset(Images(es)) == multiset(es)
    ensures |Texts(es)| + |Images(es)| == |es|
    decreases |es|
  {
    if |es| > 0 {
      var e := es[0];
      var rest := es[1..];
      PartitionComplete(rest);
      var t, i := Texts(rest), Images(rest);
      assert multiset(es) == multiset{e} + multiset(rest) by {
        assert es == [e] + rest;
      }
      if e.Text? {
        PartitionStep(e, t, i, rest, Texts(es), Images(es));
      } else {
        PartitionStep(e, i, t, rest, Images(es), Texts(es));
      }
    }
  }

  /** One entry joins one list: the multiset and length bookkeeping. */
  lemma PartitionStep<T>(e: T, mine: seq<T>, other: seq<T>, rest: seq<T>, mine': seq<T>, other': seq<T>)
    requires multiset(mine) + multiset(other) == multiset(rest)
    requires |mine| + |other| == |rest|
    requires mine' == [e] + mine && other' == other
    ensures multiset(mine') + multiset(other') == multiset{e} + multiset(rest)
    ensures multiset(other') + multiset(mine') == multiset{e} + multiset(rest)
    ensures |mine'| + |other'| == 1 + |rest|
  {
    assert multiset(mine') == multiset{e} + multiset(mine);
  }

  /** The partition keeps listing order: it distributes over concatenation. */
  lemma {:induction false} PartitionAppend(a: seq<Cliphist.Entry>, b: seq<Cliphist.Entry>)
    ensures Texts(a + b) == Texts(a) + Texts(b)
    ensures Images(a + b) == Images(a) + Images(b)
    decreases |a|
  {
    if |a| > 0 {
      assert (a + b)[1..] == a[1..] + b;
      PartitionAppend(a[1..], b);
    } else {
      assert a + b == b;
    }
  }

  /** `ClipHistMode::new` once the listing is in: texts and images split,
      each list with its options, the text list on screen. */
  function Initial(es: seq<Cliphist.Entry>, config: ClipHistModeConfig): Session
  {
    Session(RofiState(Texts(es), ModeOptions(Text, config)),
            RofiState(Images(es), ModeOptions(Image, config)),
            Text)
  }

  /** `ClipHistMode::new`: a failing listing is the error. */
  function Start(listing: Cliphist.Listing, config: ClipHistModeConfig): (r: Result<Session>)
    ensures r.Err? <==> Cliphist.List(listing).Err?
    ensures r.Ok? ==> r.value.mode == Text
    ensures r.Ok? ==> r.value.txt.options == ModeOptions(Text, config)
    ensures r.Ok? ==> r.value.img.options == ModeOptions(Image, config)
    ensures r.Ok? ==> forall i :: 0 <= i < |r.value.txt.entries| ==> r.value.txt.entries[i].Text?
    ensures r.Ok? ==> forall i :: 0 <= i < |r.value.img.entries| ==> r.value.img.entries[i].Image?
    ensures r.Ok? ==> r.value.txt.entries == Texts(Cliphist.List(listing).value)
    ensures r.Ok? ==> r.value.img.entries == Images(Cliphist.List(listing).value)
  {
    match Cliphist.List(listing)
    case Err(e) => Err(e)
    case Ok(es) => Ok(Initial(es, config))
  }

  /** Every listed entry lands in exactly one list, by its kind. */
  lemma InitialPartition(es: seq<Cliphist.Entry>, config: ClipHistModeConfig)
    ensures multiset(Initial(es, config).txt.entries) + multiset(Initial(es, config).img.entries) == multiset(es)
    ensures forall e :: e in es && e.Text? ==> e in Initial(es, config).txt.entries
    ensures forall e :: e in es && e.Image? ==> e in Initial(es, config).img.entries
  {
    PartitionComplete(es);
    forall e | e in es
      ensures e.Text? ==> e in Texts(es)
      ensures e.Image? ==> e in Images(es)
    {
      assert e in multiset(es);
      if e.Text? {
        assert e !in Images(es);
        assert e in multiset(Texts(es));
      } else {
        assert e !in Texts(es);
        assert e in multiset(Images(es));
      }
    }
  }

  // ---------------------------------------------------------------------------
  // One chooser answer

  /** How the loop goes on: show the chooser again, stop, or stop with an
      error. */
  datatype Outcome = Continue | Exit | Fail(error: Error)

  /** What one answer does: the new session, the requests sent to the store,
      the payloads copied to the clipboard, and how the loop goes on. */
  datatype Effect = Effect(
    next: Session,
    calls: seq<Cliphist.StoreCall>,
    copied: seq<seq<bv8>>,
    outcome: Outcome)

  /** The result of removing entries from the store one by one, stopping at
      the first failure: the requests sent, and whether all succeeded. */
  datatype Removal = Removal(calls: seq<Cliphist.StoreCall>, ok: bool)

  function DeleteCall(e: Cliphist.Entry): Cliphist.StoreCall
  {
    Cliphist.Delete(Cliphist.RemoveInput(e.id))
  }

  /** One deletion request per entry, in order. */
  function Deletes(es: seq<Cliphist.Entry>): (r: seq<Cliphist.StoreCall>)
    ensures |r| == |es|
  {
    seq(|es|, i requires 0 <= i < |es| => DeleteCall(es[i]))
  }

  /** The `for … { remove(…)? }` loops: removals in order until one fails. */
  function RemovalRun(es: seq<Cliphist.Entry>, undeletable: set<string>): Removal
    decreases |es|
  {
    if |es| == 0 then Removal([], true)
    else
      var prev := RemovalRun(es[..|es| - 1], undeletable);
      var last := es[|es| - 1];
      if !prev.ok then prev
      else Removal(prev.calls + [DeleteCall(last)], last.id !in undeletable)
  }

  /** After a failure nothing more is sent. */
  lemma {:induction false} RemovalRunStuck(a: seq<Cliphist.Entry>, b: seq<Cliphist.Entry>, undeletable: set<string>)
    requires !RemovalRun(a, undeletable).ok
    ensures RemovalRun(a + b, undeletable) == RemovalRun(a, undeletable)
    decreases |b|
  {
    if |b| > 0 {
      var b' := b[..|b| - 1];
      RemovalRunStuck(a, b', undeletable);
      assert (a + b)[..|a + b| - 1] == a + b';
    } else {
      assert a + b == a;
    }
  }

  /** The removals go in ascending order: all of them when every removal
      succeeds, and otherwise exactly those up to and including the first
      one that fails. */
  lemma {:induction false} RemovalOrder(es: seq<Cliphist.Entry>, undeletable: set<string>)
    ensures RemovalRun(es, undeletable).ok <==> forall i :: 0 <= i < |es| ==> es[i].id !in undeletable
    ensures RemovalRun(es, undeletable).ok ==> RemovalRun(es, undeletable).calls == Deletes(es)
    ensures !RemovalRun(es, undeletable).ok ==>
      exists j :: 0 <= j < |es| && es[j].id in undeletable
        && (forall i :: 0 <= i < j ==> es[i].id !in undeletable)
        && RemovalRun(es, undeletable).calls == Deletes(es[..j + 1])
    decreases |es|
  {
    if |es| > 0 {
      var init := es[..|es| - 1];
      var last := es[|es| - 1];
      RemovalOrder(init, undeletable);
      var prev := RemovalRun(init, undeletable);
      if prev.ok {
        assert Deletes(es) == Deletes(init) + [DeleteCall(last)];
        if last.id in undeletable {
          var j := |es| - 1;
          assert es[..j + 1] == es;
          assert forall i :: 0 <= i < j ==> es[i] == init[i];
        }
      } else {
        var j :| 0 <= j < |init| && init[j].id in undeletable
          && (forall i :: 0 <= i < j ==> init[i].id !in undeletable)
          && prev.calls == Deletes(init[..j + 1]);
        assert init[..j + 1] == es[..j + 1];
        assert es[j] == init[j];
        assert forall i :: 0 <= i < j ==> es[i] == init[i];
      }
    }
  }

  /** The list on screen replaced by `entries`, then the removals. */
  function AfterRemoval(s: Session, entries: seq<Cliphist.Entry>, r: Removal): Effect
  {
    Effect(s.WithCurrent(s.Current().(entries := entries)), r.calls, [],
           if r.ok then Continue else Fail(Cliphist.STORE_FAILED))
  }

  /** The session with the highlighted row of the list on screen set. */
  function Highlight(s: Session, row: nat): Session
  {
    s.WithCurrent(s.Current().(options := s.Current().options.(selectedRow := row)))
  }

  /** `Vec::remove` past the end panics. */
  const REMOVE_OUT_OF_RANGE := Abort("removal index out of bounds")
  /** `Vec::drain` with a range past the end panics. */
  const DRAIN_OUT_OF_RANGE := Abort("drain range out of bounds")
  /** A selected row past the end of the list. */
  const INVALID_ID := Abort("Invalid id")
  /** The message of an exit code no binding maps to, before the code. */
  const UNEXPECTED_KEY := "Unexpected key: "

  /** The reaction to a key binding on row `id`, once the row is highlighted.
      `Vec::remove` and `Vec::drain` out of range are panics. */
  function KeyEffect(s: Session, key: int, id: nat, undeletable: set<string>): Effect
  {
    var es := s.Current().entries;
    if key == SHOW_IMAGES then Effect(s.(mode := Image), [], [], Continue)
    else if key == SHOW_TEXTS then Effect(s.(mode := Text), [], [], Continue)
    else if key == DELETE_ONE then
      if id >= |es| then Effect(s, [], [], Fail(REMOVE_OUT_OF_RANGE))
      else AfterRemoval(s, es[..id] + es[id + 1..], RemovalRun([es[id]], undeletable))
    else if key == DELETE_BEFORE then
      if id > |es| then Effect(s, [], [], Fail(DRAIN_OUT_OF_RANGE))
      else AfterRemoval(s, es[id..], RemovalRun(es[..id], undeletable))
    else if key == DELETE_AFTER then
      if id + 1 > |es| then Effect(s, [], [], Fail(DRAIN_OUT_OF_RANGE))
      else AfterRemoval(s, es[..id + 1], RemovalRun(es[id + 1..], undeletable))
    else Effect(s, [], [], Fail(ProtocolError(UNEXPECTED_KEY + Strings.IntToString(key))))
  }

  /** The body of one iteration of `run` after the chooser answered `res`;
      `payloads` and `undeletable` are the store's answers. */
  function Next(s: Session, res: Rofi.RofiResult, payloads: map<string, seq<bv8>>,
                undeletable: set<string>): Effect
  {
    match res
    case Selection(id) =>
      var h := Highlight(s, id);
      var es := s.Current().entries;
      if id >= |es| then Effect(h, [], [], Fail(INVALID_ID))
      else
        var call := Cliphist.Decode(Cliphist.DecodeArg(es[id].id));
        if es[id].id in payloads then Effect(h, [call], [payloads[es[id].id]], Exit)
        else Effect(h, [call], [], Fail(Cliphist.STORE_FAILED))
    case Keyboard(key, id) => KeyEffect(Highlight(s, id), key, id, undeletable)
    case Cancel => Effect(s, [], [], Exit)
    case Empty => Effect(s, [], [], Exit)
    case SignalResult(_) => Effect(s, [], [], Exit)
  }

  /** A selection or a key first highlights the answered row in the list on
      screen; the other list is never touched, and the options of the list
      on screen change in nothing else. */
  lemma NextHighlights(s: Session, res: Rofi.RofiResult, payloads: map<string, seq<bv8>>, undeletable: set<string>)
    requires res.Selection? || res.Keyboard?
    ensures Next(s, res, payloads, undeletable).next.StateOf(s.mode).options
            == s.Current().options.(selectedRow := res.id)
    ensures forall m :: m != s.mode ==> Next(s, res, payloads, undeletable).next.StateOf(m) == s.StateOf(m)
  {
  }

  /** The switch keys change the mode and nothing else, and ask nothing of
      the store or the clipboard. */
  lemma NextSwitch(s: Session, key: int, id: nat, payloads: map<string, seq<bv8>>, undeletable: set<string>)
    requires key == SHOW_IMAGES || key == SHOW_TEXTS
    ensures var eff := Next(s, Rofi.Keyboard(key, id), payloads, undeletable);
      eff.next == Highlight(s, id).(mode := if key == SHOW_IMAGES then Image else Text)
      && eff.next.txt.entries == s.txt.entries && eff.next.img.entries == s.img.entries
      && eff.calls == [] && eff.copied == [] && eff.outcome == Continue
  {
  }

  /** `DELETE_ONE` on a row in range drops exactly that row from the list on
      screen and asks the store to delete exactly its entry. */
  lemma NextDeleteOne(s: Session, id: nat, payloads: map<string, seq<bv8>>, undeletable: set<string>)
    requires id < |s.Current().entries|
    ensures var es := s.Current().entries;
      var eff := Next(s, Rofi.Keyboard(DELETE_ONE, id), payloads, undeletable);
      eff.next.Current().entries == es[..id] + es[id + 1..]
      && multiset(eff.next.Current().entries) + multiset{es[id]} == multiset(es)
      && eff.calls == [DeleteCall(es[id])] && eff.copied == []
      && (eff.outcome == Continue <==> es[id].id !in undeletable)
      && (eff.outcome != Continue ==> eff.outcome == Fail(Cliphist.STORE_FAILED))
  {
    var es := s.Current().entries;
    assert es == es[..id] + [es[id]] + es[id + 1..];
    assert multiset(es) == multiset(es[..id]) + multiset{es[id]} + multiset(es[id + 1..]);
    assert RemovalRun([es[id]], undeletable) == Removal([DeleteCall(es[id])], es[id].id !in undeletable) by {
      assert [es[id]][..0] == [];
    }
  }

  /** `DELETE_BEFORE` on row `id` keeps the rows from `id` on, the answered
      row first, and deletes the rows above it from the store top to bottom,
      stopping at the first failure; the list is cut before the store is
      asked, so the cut list stays whatever the store answers. */
  lemma NextDeleteBefore(s: Session, id: nat, payloads: map<string, seq<bv8>>, undeletable: set<string>)
    requires id <= |s.Current().entries|
    ensures var es := s.Current().entries;
      var eff := Next(s, Rofi.Keyboard(DELETE_BEFORE, id), payloads, undeletable);
      eff.next.Current().entries == es[id..]
      && (id < |es| ==> eff.next.Current().entries[0] == es[id])
      && eff.next.Current().entries == Next(s, Rofi.Keyboard(DELETE_BEFORE, id), payloads, {}).next.Current().entries
      && eff.calls == RemovalRun(es[..id], undeletable).calls
      && (eff.outcome == Continue <==> forall i :: 0 <= i < id ==> es[i].id !in undeletable)
      && ((forall i :: 0 <= i < id ==> es[i].id !in undeletable) ==> eff.calls == Deletes(es[..id]))
      && (eff.outcome != Continue ==> eff.outcome == Fail(Cliphist.STORE_FAILED))
  {
    var es := s.Current().entries;
    RemovalOrder(es[..id], undeletable);
  }

  /** `DELETE_AFTER` on row `id` keeps the rows up to and including `id`,
      the answered row last, and deletes the rows below it from the store
      top to bottom, stopping at the first failure. */
  lemma NextDeleteAfter(s: Session, id: nat, payloads: map<string, seq<bv8>>, undeletable: set<string>)
    requires id < |s.Current().entries|
    ensures var es := s.Current().entries;
      var eff := Next(s, Rofi.Keyboard(DELETE_AFTER, id), payloads, undeletable);
      eff.next.Current().entries == es[..id + 1]
      && eff.next.Current().entries[id] == es[id]
      && eff.next.Current().entries == Next(s, Rofi.Keyboard(DELETE_AFTER, id), payloads, {}).next.Current().entries
      && eff.calls == RemovalRun(es[id + 1..], undeletable).calls
      && (eff.outcome == Continue <==> forall i :: id < i < |es| ==> es[i].id !in undeletable)
      && ((forall i :: id < i < |es| ==> es[i].id !in undeletable) ==> eff.calls == Deletes(es[id + 1..]))
      && (eff.outcome != Continue ==> eff.outcome == Fail(Cliphist.STORE_FAILED))
  {
    var es := s.Current().entries;
    RemovalOrder(es[id + 1..], undeletable);
  }

  /** A deletion past the end of the list on screen is a panic: the row is
      highlighted, no list changes and nothing is sent to the store. */
  lemma NextDeleteOutOfRange(s: Session, key: int, id: nat, payloads: map<string, seq<bv8>>, undeletable: set<string>)
    ensures var es := s.Current().entries;
      var eff := Next(s, Rofi.Keyboard(key, id), payloads, undeletable);
      (key == DELETE_ONE && id >= |es| ==> eff.outcome == Fail(REMOVE_OUT_OF_RANGE))
      && (key == DELETE_BEFORE && id > |es| ==> eff.outcome == Fail(DRAIN_OUT_OF_RANGE))
      && (key == DELETE_AFTER && id >= |es| ==> eff.outcome == Fail(DRAIN_OUT_OF_RANGE))
      && (((key == DELETE_ONE || key == DELETE_AFTER) && id >= |es|) || (key == DELETE_BEFORE && id > |es|) ==>
            eff.next == Highlight(s, id) && eff.calls == [] && eff.copied == [])
  {
  }

  /** Choosing a row copies that row's stored payload and ends the loop; a
      row out of range is a panic and a failing store an error. */
  lemma NextSelection(s: Session, id: nat, payloads: map<string, seq<bv8>>, undeletable: set<string>)
    ensures var es := s.Current().entries;
      var eff := Next(s, Rofi.Selection(id), payloads, undeletable);
      (id >= |es| ==> eff.outcome == Fail(INVALID_ID) && eff.calls == [] && eff.copied == [])
      && (id < |es| ==> eff.calls == [Cliphist.Decode(Cliphist.DecodeArg(es[id].id))])
      && (id < |es| && es[id].id in payloads ==> eff.copied == [payloads[es[id].id]] && eff.outcome == Exit)
      && (id < |es| && es[id].id !in payloads ==> eff.copied == [] && eff.outcome == Fail(Cliphist.STORE_FAILED))
      && eff.next.txt.entries == s.txt.entries && eff.next.img.entries == s.img.entries
  {
  }

  /** Cancelling, an empty answer or a signal end the loop and touch
      nothing. */
  lemma NextTerminal(s: Session, res: Rofi.RofiResult, payloads: map<string, seq<bv8>>, undeletable: set<string>)
    requires res.Cancel? || res.Empty? || res.SignalResult?
    ensures Next(s, res, payloads, undeletable) == Effect(s, [], [], Exit)
  {
  }

  /** A key outside the handled codes is an error that leaves both lists as
      they were and asks nothing of the store; the handled codes never are. */
  lemma NextUnknownKey(s: Session, key: int, id: nat, payloads: map<string, seq<bv8>>, undeletable: set<string>)
    ensures var eff := Next(s, Rofi.Keyboard(key, id), payloads, undeletable);
      (eff.outcome.Fail? && eff.outcome.error.ProtocolError?) <==> !(SHOW_IMAGES <= key <= DELETE_AFTER)
    ensures var eff := Next(s, Rofi.Keyboard(key, id), payloads, undeletable);
      !(SHOW_IMAGES <= key <= DELETE_AFTER) ==>
        eff.calls == [] && eff.next.txt.entries == s.txt.entries && eff.next.img.entries == s.img.entries
  {
    var eff := Next(s, Rofi.Keyboard(key, id), payloads, undeletable);
    if SHOW_IMAGES <= key <= DELETE_AFTER {
      var h := Highlight(s, id);
      var es := h.Current().entries;
      if key == DELETE_ONE && id < |es| {
        assert eff.outcome == Continue || eff.outcome == Fail(Cliphist.STORE_FAILED);
      }
    }
  }

  /** Under the chooser's convention, no binding of the list on screen ever
      leads to the unexpected-key error. */
  lemma BoundKeysHandled(s: Session, config: ClipHistModeConfig, kb: Rofi.KbCustom, id: nat,
                         payloads: map<string, seq<bv8>>, undeletable: set<string>)
    requires kb in Bindings(s.mode, config)
    ensures var eff := Next(s, Rofi.Keyboard(ExitCode(kb), id), payloads, undeletable);
      !(eff.outcome.Fail? && eff.outcome.error.ProtocolError?)
  {
    BindingCodes(s.mode, config);
    NextUnknownKey(s, ExitCode(kb), id, payloads, undeletable);
  }

  // ---------------------------------------------------------------------------
  // Cache synchronisation (`sync_cache`)

  /** The cache keys of the given entries. */
  function Keys(es: seq<Cliphist.Entry>): set<string>
  {
    set e | e in es :: Cliphist.CacheKey(e)
  }

  /** The names `prune` is told to keep: the images' cache keys, in order. */
  function Exclusions(imgs: seq<Cliphist.Entry>): (r: seq<string>)
    ensures (set k | k in r) == Keys(imgs)
  {
    var r := seq(|imgs|, i requires 0 <= i < |imgs| => Cliphist.CacheKey(imgs[i]));
    assert forall key :: key in Keys(imgs) ==> key in r by {
      forall key | key in Keys(imgs) ensures key in r {
        var e :| e in imgs && Cliphist.CacheKey(e) == key;
        var i :| 0 <= i < |imgs| && imgs[i] == e;
        assert r[i] == key;
      }
    }
    r
  }

  /** The progress of the filling loop: the directory, the requests sent to
      the store, and whether every request succeeded. */
  datatype Fill = Fill(files: map<string, seq<bv8>>, calls: seq<Cliphist.StoreCall>, ok: bool)

  /** The first loop of `sync_cache`: for each image whose key the cache
      lacks, in order, its payload is decoded and added; the first failing
      decode stops the loop. */
  function FillCache(files: map<string, seq<bv8>>, imgs: seq<Cliphist.Entry>,
                     payloads: map<string, seq<bv8>>): Fill
    decreases |imgs|
  {
    if |imgs| == 0 then Fill(files, [], true)
    else
      var prev := FillCache(files, imgs[..|imgs| - 1], payloads);
      var e := imgs[|imgs| - 1];
      var key := Cliphist.CacheKey(e);
      if !prev.ok || key in prev.files then prev
      else
        var call := Cliphist.Decode(Cliphist.DecodeArg(e.id));
        if e.id in payloads then Fill(prev.files[key := payloads[e.id]], prev.calls + [call], true)
        else Fill(prev.files, prev.calls + [call], false)
  }

  /** After a failure nothing more happens. */
  lemma {:induction false} FillStuck(files: map<string, seq<bv8>>, a: seq<Cliphist.Entry>, b: seq<Cliphist.Entry>,
                                     payloads: map<string, seq<bv8>>)
    requires !FillCache(files, a, payloads).ok
    ensures FillCache(files, a + b, payloads) == FillCache(files, a, payloads)
    decreases |b|
  {
    if |b| > 0 {
      var b' := b[..|b| - 1];
      FillStuck(files, a, b', payloads);
      assert (a + b)[..|a + b| - 1] == a + b';
    } else {
      assert a + b == a;
    }
  }

  /** The image keys of a list grow by one key per appended image. */
  lemma KeysAppend(init: seq<Cliphist.Entry>, e: Cliphist.Entry)
    ensures Keys(init + [e]) == Keys(init) + {Cliphist.CacheKey(e)}
  {
    assert forall x :: x in init + [e] <==> x in init || x == e;
  }

  /** Filling never rewrites a file that was there, and adds only files
      named by image keys. */
  lemma {:induction false} FillKeeps(files: map<string, seq<bv8>>, imgs: seq<Cliphist.Entry>,
                                     payloads: map<string, seq<bv8>>)
    ensures forall k :: k in files ==> k in FillCache(files, imgs, payloads).files
                                       && FillCache(files, imgs, payloads).files[k] == files[k]
    ensures FillCache(files, imgs, payloads).files.Keys <= files.Keys + Keys(imgs)
    ensures FillCache(files, imgs, payloads).ok ==> FillCache(files, imgs, payloads).files.Keys == files.Keys + Keys(imgs)
    decreases |imgs|
  {
    if |imgs| > 0 {
      var init := imgs[..|imgs| - 1];
      var e := imgs[|imgs| - 1];
      var key := Cliphist.CacheKey(e);
      FillKeeps(files, init, payloads);
      KeysAppend(init, e);
      assert imgs == init + [e];
      var prev := FillCache(files, init, payloads);
      var f := FillCache(files, imgs, payloads);
      if !prev.ok || key in prev.files {
        assert f == prev;
      } else if e.id in payloads {
        assert key !in files;
        assert f.files == prev.files[key := payloads[e.id]] && f.ok;
      } else {
        assert f.files == prev.files && !f.ok;
      }
    }
  }

  /** Every file filling adds holds the store's payload of an image with
      that key. */
  lemma {:induction false} FillAdds(files: map<string, seq<bv8>>, imgs: seq<Cliphist.Entry>,
                                    payloads: map<string, seq<bv8>>)
    ensures var f := FillCache(files, imgs, payloads);
      forall k :: k in f.files && k !in files ==>
        exists e :: e in imgs && Cliphist.CacheKey(e) == k && e.id in payloads && f.files[k] == payloads[e.id]
    decreases |imgs|
  {
    if |imgs| > 0 {
      var init := imgs[..|imgs| - 1];
      FillAdds(files, init, payloads);
      assert forall x :: x in init ==> x in imgs;
      assert imgs[|imgs| - 1] in imgs;
    }
  }

  /** Filling asks the store only about images whose key the cache lacked,
      and gets through when the store knows every image. */
  lemma {:induction false} FillAsks(files: map<string, seq<bv8>>, imgs: seq<Cliphist.Entry>,
                                    payloads: map<string, seq<bv8>>)
    ensures var f := FillCache(files, imgs, payloads);
      forall i :: 0 <= i < |f.calls| ==>
        exists e :: e in imgs && Cliphist.CacheKey(e) !in files && f.calls[i] == Cliphist.Decode(Cliphist.DecodeArg(e.id))
    ensures (forall e :: e in imgs ==> e.id in payloads) ==> FillCache(files, imgs, payloads).ok
    decreases |imgs|
  {
    if |imgs| > 0 {
      var init := imgs[..|imgs| - 1];
      var e := imgs[|imgs| - 1];
      FillAsks(files, init, payloads);
      FillKeeps(files, init, payloads);
      assert forall x :: x in init ==> x in imgs;
      assert e in imgs;
      var prev := FillCache(files, init, payloads);
      var f := FillCache(files, imgs, payloads);
      if prev.ok && Cliphist.CacheKey(e) !in prev.files {
        assert Cliphist.CacheKey(e) !in files;
        forall i | 0 <= i < |f.calls|
          ensures exists x :: x in imgs && Cliphist.CacheKey(x) !in files && f.calls[i] == Cliphist.Decode(Cliphist.DecodeArg(x.id))
        {
          if i == |prev.calls| {
            assert f.calls[i] == Cliphist.Decode(Cliphist.DecodeArg(e.id));
          } else {
            assert f.calls[i] == prev.calls[i];
          }
        }
      }
    }
  }

  /** When every image already has its file, filling does nothing. */
  lemma {:induction false} FillNoop(files: map<string, seq<bv8>>, imgs: seq<Cliphist.Entry>,
                                    payloads: map<string, seq<bv8>>)
    requires Keys(imgs) <= files.Keys
    ensures FillCache(files, imgs, payloads) == Fill(files, [], true)
    decreases |imgs|
  {
    if |imgs| > 0 {
      var init := imgs[..|imgs| - 1];
      assert Keys(init) <= Keys(imgs);
      FillNoop(files, init, payloads);
      assert Cliphist.CacheKey(imgs[|imgs| - 1]) in Keys(imgs);
    }
  }

  /** What `sync_cache` did: the directory, the requests to the store, and
      its result (the number of stale files deleted). */
  datatype Synced = Synced(files: map<string, seq<bv8>>, calls: seq<Cliphist.StoreCall>, result: Result<nat>)

  /** The reconciliation of `sync_cache` with the listed images: fill the
      cache with the missing thumbnails, then prune every file that is not
      a listed image's. */
  function Reconcile(files: map<string, seq<bv8>>, imgs: seq<Cliphist.Entry>,
                     payloads: map<string, seq<bv8>>): Synced
  {
    var f := FillCache(files, imgs, payloads);
    if !f.ok then Synced(f.files, f.calls, Err(Cliphist.STORE_FAILED))
    else Synced(Cache.Pruned(f.files, Keys(imgs)), f.calls, Ok(Cache.PruneCount(f.files, Keys(imgs))))
  }

  /** `sync_cache` over a fresh listing. */
  function Sync(files: map<string, seq<bv8>>, listing: Cliphist.Listing,
                payloads: map<string, seq<bv8>>): Synced
  {
    match Cliphist.List(listing)
    case Err(e) => Synced(files, [], Err(e))
    case Ok(es) => Reconcile(files, Images(es), payloads)
  }

  /** After a successful reconciliation the cache holds exactly one file per
      image key: files already there keep their content, new ones hold the
      image's payload, the store was asked only about images missing from
      the cache, and the count is the number of files that were not an
      image's. */
  lemma ReconcileMirrors(files: map<string, seq<bv8>>, imgs: seq<Cliphist.Entry>, payloads: map<string, seq<bv8>>)
    requires Reconcile(files, imgs, payloads).result.Ok?
    ensures Reconcile(files, imgs, payloads).files.Keys == Keys(imgs)
    ensures forall k :: k in Reconcile(files, imgs, payloads).files && k in files ==>
      Reconcile(files, imgs, payloads).files[k] == files[k]
    ensures Reconcile(files, imgs, payloads).result.value == |files.Keys - Keys(imgs)|
  {
    var f := FillCache(files, imgs, payloads);
    var keys := Keys(imgs);
    FillKeeps(files, imgs, payloads);
    assert f.ok && f.files.Keys == files.Keys + keys;
    var r := Reconcile(files, imgs, payloads);
    assert r.files == Cache.Pruned(f.files, keys);
    assert r.files.Keys == keys by {
      assert (files.Keys + keys) * keys == keys;
    }
    assert f.files.Keys - keys == files.Keys - keys;
  }

  /** The files reconciliation adds hold the store's payload of an image
      with that key, and the store is asked only about images missing from
      the cache. */
  lemma ReconcileFetches(files: map<string, seq<bv8>>, imgs: seq<Cliphist.Entry>, payloads: map<string, seq<bv8>>)
    ensures var sy := Reconcile(files, imgs, payloads);
      forall k :: k in sy.files && k !in files ==>
        exists e :: e in imgs && Cliphist.CacheKey(e) == k && e.id in payloads && sy.files[k] == payloads[e.id]
    ensures var sy := Reconcile(files, imgs, payloads);
      forall i :: 0 <= i < |sy.calls| ==>
        exists e :: e in imgs && Cliphist.CacheKey(e) !in files && sy.calls[i] == Cliphist.Decode(Cliphist.DecodeArg(e.id))
  {
    FillAdds(files, imgs, payloads);
    FillAsks(files, imgs, payloads);
  }

  /** Reconciling again with the same images asks the store nothing,
      changes nothing and deletes nothing. */
  lemma ReconcileTwice(files: map<string, seq<bv8>>, imgs: seq<Cliphist.Entry>, payloads: map<string, seq<bv8>>)
    requires Reconcile(files, imgs, payloads).result.Ok?
    ensures var once := Reconcile(files, imgs, payloads).files;
      Reconcile(once, imgs, payloads) == Synced(once, [], Ok(0))
  {
    ReconcileMirrors(files, imgs, payloads);
    ReconcileSettled(Reconcile(files, imgs, payloads).files, imgs, payloads);
  }

  /** A cache holding exactly the images' keys is left as it is: nothing is
      fetched and nothing is deleted. */
  lemma ReconcileSettled(files: map<string, seq<bv8>>, imgs: seq<Cliphist.Entry>, payloads: map<string, seq<bv8>>)
    requires files.Keys == Keys(imgs)
    ensures Reconcile(files, imgs, payloads) == Synced(files, [], Ok(0))
  {
    FillNoop(files, imgs, payloads);
    var kept := Cache.Pruned(files, Keys(imgs));
    assert kept.Keys == files.Keys;
    assert kept == files;
    assert files.Keys - Keys(imgs) == {};
  }

  /** A failing listing changes nothing; otherwise the cache is reconciled
      with the listing's image entries. */
  lemma SyncMirrors(files: map<string, seq<bv8>>, listing: Cliphist.Listing, payloads: map<string, seq<bv8>>)
    ensures Cliphist.List(listing).Err? ==>
      Sync(files, listing, payloads) == Synced(files, [], Err(Cliphist.List(listing).error))
    ensures Cliphist.List(listing).Ok? ==>
      var imgs := Images(Cliphist.List(listing).value);
      Sync(files, listing, payloads).result.Ok? ==> Sync(files, listing, payloads).files.Keys == Keys(imgs)
  {
    if Cliphist.List(listing).Ok? && Sync(files, listing, payloads).result.Ok? {
      ReconcileMirrors(files, Images(Cliphist.List(listing).value), payloads);
    }
  }

  /** Synchronising twice against the same listing: the second time asks
      the store nothing, changes nothing and deletes nothing. */
  lemma SyncTwice(files: map<string, seq<bv8>>, listing: Cliphist.Listing, payloads: map<string, seq<bv8>>)
    requires Sync(files, listing, payloads).result.Ok?
    ensures var once := Sync(files, listing, payloads).files;
      Sync(once, listing, payloads) == Synced(once, [], Ok(0))
  {
    ReconcileTwice(files, Images(Cliphist.List(listing).value), payloads);
  }

  /** When the store can decode every image, reconciliation succeeds. */
  lemma ReconcileSucceeds(files: map<string, seq<bv8>>, es: seq<Cliphist.Entry>, payloads: map<string, seq<bv8>>)
    requires forall e :: e in es && e.Image? ==> e.id in payloads
    ensures Reconcile(files, Images(es), payloads).result.Ok?
  {
    var imgs := Images(es);
    PartitionComplete(es);
    forall e | e in imgs ensures e.id in payloads {
      assert e in multiset(imgs);
      assert e in multiset(es);
    }
    FillAsks(files, imgs, payloads);
  }

  // ---------------------------------------------------------------------------
  // One iteration of `run`, and a run over a script of answers

  /** What the outside world answers in one iteration: the history listing
      `sync_cache` reads, and the chooser's exit status and output. */
  datatype Answer = Answer(listing: Cliphist.Listing, status: Rofi.ExitStatus, stdout: string)

  /** The mode's lists and the cache directory's contents. */
  datatype World = World(session: Session, files: map<string, seq<bv8>>)

  /** What one or more iterations did: the final world, the chooser calls
      made, the requests sent to the store, the payloads copied, and how
      the loop goes on. */
  datatype Round = Round(
    next: World,
    shown: seq<Rofi.PickerCall>,
    calls: seq<Cliphist.StoreCall>,
    copied: seq<seq<bv8>>,
    outcome: Outcome)

  /** The chooser call for a list, over a cache holding `cached`. */
  function Shown(st: RofiState, cached: set<string>, dir: string): Rofi.PickerCall
  {
    Rofi.PickerCall(if |st.entries| == 0 then Rofi.EmptyArgs(st.options) else Rofi.Args(st.options),
                    Rofi.Encoded(st.entries, cached, dir))
  }

  /** The rest of an iteration once the cache holds `files`: show the list
      on screen, decode the answer and react to it. */
  function Respond(s: Session, files: map<string, seq<bv8>>, dir: string, status: Rofi.ExitStatus,
                   stdout: string, payloads: map<string, seq<bv8>>, undeletable: set<string>): Round
  {
    var shown := [Shown(s.Current(), files.Keys, dir)];
    match Rofi.DecodeResult(status, stdout)
    case Err(e) => Round(World(s, files), shown, [], [], Fail(e))
    case Ok(res) =>
      var eff := Next(s, res, payloads, undeletable);
      Round(World(eff.next, files), shown, eff.calls, eff.copied, eff.outcome)
  }

  /** One iteration of the loop in `run`: synchronise the cache, then show
      the list on screen, decode the answer and react to it. */
  function Step(w: World, a: Answer, dir: string, payloads: map<string, seq<bv8>>,
                undeletable: set<string>): Round
  {
    var sy := Sync(w.files, a.listing, payloads);
    if sy.result.Err? then Round(World(w.session, sy.files), [], sy.calls, [], Fail(sy.result.error))
    else
      var r := Respond(w.session, sy.files, dir, a.status, a.stdout, payloads, undeletable);
      r.(calls := sy.calls + r.calls)
  }

  /** The loop in `run` over a finite script of answers: iterations go on
      while the outcome is `Continue`; the first other outcome ends it. */
  function Drive(w: World, answers: seq<Answer>, dir: string, payloads: map<string, seq<bv8>>,
                 undeletable: set<string>): Round
    decreases |answers|
  {
    if |answers| == 0 then Round(w, [], [], [], Continue)
    else
      var r := Step(w, answers[0], dir, payloads, undeletable);
      if r.outcome != Continue then r
      else
        var rest := Drive(r.next, answers[1..], dir, payloads, undeletable);
        Round(rest.next, r.shown + rest.shown, r.calls + rest.calls, r.copied + rest.copied, rest.outcome)
  }

  /** An iteration whose synchronisation and answer both go through reacts
      to the answer over the synchronised cache, after the store requests
      of the synchronisation. */
  lemma StepAnswered(w: World, a: Answer, dir: string, payloads: map<string, seq<bv8>>,
                     undeletable: set<string>)
    requires Sync(w.files, a.listing, payloads).result.Ok?
    requires Rofi.DecodeResult(a.status, a.stdout).Ok?
    ensures var sy := Sync(w.files, a.listing, payloads);
      var eff := Next(w.session, Rofi.DecodeResult(a.status, a.stdout).value, payloads, undeletable);
      var r := Step(w, a, dir, payloads, undeletable);
      r.next == World(eff.next, sy.files) && r.calls == sy.calls + eff.calls
      && r.copied == eff.copied && r.outcome == eff.outcome
  {
  }

  /** The chooser is shown only over a cache that mirrors the fresh
      listing's images, and it shows the list on screen with icons resolved
      against that cache. */
  lemma StepShowsSyncedCache(w: World, a: Answer, dir: string, payloads: map<string, seq<bv8>>,
                             undeletable: set<string>)
    ensures var r := Step(w, a, dir, payloads, undeletable);
      |r.shown| > 0 ==>
        Cliphist.List(a.listing).Ok?
        && r.next.files.Keys == Keys(Images(Cliphist.List(a.listing).value))
        && r.shown == [Shown(w.session.Current(), r.next.files.Keys, dir)]
    ensures var r := Step(w, a, dir, payloads, undeletable);
      |r.shown| == 0 ==> r.outcome.Fail? && r.next.session == w.session
  {
    SyncMirrors(w.files, a.listing, payloads);
  }

  /** A run copies at most once, and a copy always ends it normally. */
  lemma {:induction false} DriveCopiesOnce(w: World, answers: seq<Answer>, dir: string,
                                           payloads: map<string, seq<bv8>>, undeletable: set<string>)
    ensures |Drive(w, answers, dir, payloads, undeletable).copied| <= 1
    ensures |Drive(w, answers, dir, payloads, undeletable).copied| == 1 ==>
      Drive(w, answers, dir, payloads, undeletable).outcome == Exit
    decreases |answers|
  {
    if |answers| > 0 {
      var r := Step(w, answers[0], dir, payloads, undeletable);
      StepCopies(w, answers[0], dir, payloads, undeletable);
      if r.outcome == Continue {
        DriveCopiesOnce(r.next, answers[1..], dir, payloads, undeletable);
      }
    }
  }

  /** One answer copies at most once, and only when it ends the loop. */
  lemma NextCopies(s: Session, res: Rofi.RofiResult, payloads: map<string, seq<bv8>>, undeletable: set<string>)
    ensures |Next(s, res, payloads, undeletable).copied| <= 1
    ensures |Next(s, res, payloads, undeletable).copied| == 1 ==> Next(s, res, payloads, undeletable).outcome == Exit
  {
    if res.Keyboard? {
      var h := Highlight(s, res.id);
      var es := h.Current().entries;
      assert KeyEffect(h, res.key, res.id, undeletable).copied == [];
    }
  }

  /** One iteration copies at most once, and only when it ends the loop. */
  lemma StepCopies(w: World, a: Answer, dir: string, payloads: map<string, seq<bv8>>, undeletable: set<string>)
    ensures |Step(w, a, dir, payloads, undeletable).copied| <= 1
    ensures |Step(w, a, dir, payloads, undeletable).copied| == 1 ==> Step(w, a, dir, payloads, undeletable).outcome == Exit
  {
    var sy := Sync(w.files, a.listing, payloads);
    if sy.result.Ok? {
      var d := Rofi.DecodeResult(a.status, a.stdout);
      if d.Ok? {
        NextCopies(w.session, d.value, payloads, undeletable);
      }
    }
  }

  /** The history of the end-to-end example: one text, then one image
      whose value has a tab inside. */
  const SAMPLE_LISTING := "1" + "\t" + "hello" + "\n" + ("2" + "\t" + SAMPLE_IMAGE + "\n")

  const SAMPLE_IMAGE := "[[ binary\tdata ]] png"

  /** The sample's image value opens with `[[`, a space and `binary`, so the
      `.*` part starts at 9 and, with no newline, runs to the end. */
  lemma SampleImageSpan()
    ensures Cliphist.BinaryStart(SAMPLE_IMAGE) == Some(9)
    ensures Cliphist.NewlineFrom(SAMPLE_IMAGE, 9) == 21
  {
    var v := SAMPLE_IMAGE;
    assert v[..2] == "[[" && v[3..9] == "binary";
    assert forall i :: 9 <= i < |v| ==> v[i] != '\n';
  }

  /** The rightmost extension in the sample's `.*` part is `png`, at 18. */
  lemma SampleImageExt()
    ensures Cliphist.RightmostExt(SAMPLE_IMAGE, 9, 21) == Some((18, "png"))
  {
    var v := SAMPLE_IMAGE;
    assert v[18..] == "png" && v[19..] == "ng" && v[20..] == "g";
    assert Cliphist.ExtAt(v, 20) == None;
    assert Cliphist.ExtAt(v, 19) == None;
    assert v[18] == 'p' && "jpg"[0] == 'j' && "jpeg"[0] == 'j';
    assert Cliphist.ExtAt(v, 18) == Some("png");
  }

  /** The sample's image value classifies as a `png` image. */
  lemma SampleImage()
    ensures Cliphist.Classify("2", SAMPLE_IMAGE) == Cliphist.Image("2", "png")
  {
    SampleImageSpan();
    SampleImageExt();
  }

  /** The sample's rows, id and value. */
  const SAMPLE_ROWS := [("1", "hello"), ("2", SAMPLE_IMAGE)]

  lemma SampleWellFormed()
    ensures forall i :: 0 <= i < |SAMPLE_ROWS| ==> Cliphist.WellFormedRow(SAMPLE_ROWS[i])
  {
    assert forall i :: 0 <= i < |SAMPLE_IMAGE| ==> SAMPLE_IMAGE[i] != '\n';
  }

  lemma SampleRendered()
    ensures Cliphist.Render(SAMPLE_ROWS) == SAMPLE_LISTING
  {
    var tail := SAMPLE_ROWS[1..];
    assert tail[1..] == [];
    assert Cliphist.Render(tail) == "2" + "\t" + SAMPLE_IMAGE + "\n" + "";
  }

  /** The sample's text value does not start with `binary`. */
  lemma SampleText()
    ensures Cliphist.Classify("1", "hello") == Cliphist.Text("1", "hello")
  {
    assert Cliphist.BinaryStart("hello") == None;
  }

  /** The sample lists as one text and one image of type `png`. */
  lemma SampleListing()
    ensures Cliphist.List(Cliphist.Listed(Cliphist.Render(SAMPLE_ROWS)))
            == Ok([Cliphist.Text("1", "hello"), Cliphist.Image("2", "png")])
  {
    SampleWellFormed();
    Cliphist.ListRender(SAMPLE_ROWS);
    SampleText();
    SampleImage();
    var l := Cliphist.List(Cliphist.Listed(Cliphist.Render(SAMPLE_ROWS))).value;
    assert |l| == 2 && l[0] == Cliphist.Text("1", "hello") && l[1] == Cliphist.Image("2", "png");
    assert l == [Cliphist.Text("1", "hello"), Cliphist.Image("2", "png")];
  }

  // A history of one text and one image, such as the sample: the lemmas
  // below are stated for any such history.

  /** One text then one image split into one entry per list. */
  lemma PairParts(t: Cliphist.Entry, im: Cliphist.Entry)
    requires t.Text? && im.Image?
    ensures Texts([t, im]) == [t] && Images([t, im]) == [im]
  {
    assert [t, im][1..] == [im];
    assert [im][1..] == [];
    assert Texts([im]) == [] && Images([im]) == [im];
    assert Texts([t, im]) == [t] + Texts([im]);
    assert Images([t, im]) == Images([im]);
  }

  /** A history of one text then one image starts on the text list holding
      the text, with the image in the image list. */
  lemma PairStart(listing: Cliphist.Listing, t: Cliphist.Entry, im: Cliphist.Entry, config: ClipHistModeConfig)
    requires Cliphist.List(listing) == Ok([t, im]) && t.Text? && im.Image?
    ensures Start(listing, config) == Ok(Initial([t, im], config))
    ensures Initial([t, im], config).txt.entries == [t]
    ensures Initial([t, im], config).img.entries == [im]
  {
    PairParts(t, im);
  }

  /** Over an empty cache, reconciling with one image fetches its payload
      into the file named by its key and deletes nothing. */
  lemma PairReconcile(im: Cliphist.Entry, payloads: map<string, seq<bv8>>)
    requires im.id in payloads
    ensures Reconcile(map[], [im], payloads)
            == Synced(map[Cliphist.CacheKey(im) := payloads[im.id]], [Cliphist.Decode(Cliphist.DecodeArg(im.id))], Ok(0))
  {
    var key := Cliphist.CacheKey(im);
    assert [im][..0] == [];
    var files := map[key := payloads[im.id]];
    assert FillCache(map[], [im], payloads) == Fill(files, [Cliphist.Decode(Cliphist.DecodeArg(im.id))], true);
    assert Keys([im]) == {key};
    assert Cache.Pruned(files, {key}) == files;
  }

  /** Synchronising the empty cache with such a history fetches the image's
      payload. */
  lemma PairSync(listing: Cliphist.Listing, t: Cliphist.Entry, im: Cliphist.Entry, payloads: map<string, seq<bv8>>)
    requires Cliphist.List(listing) == Ok([t, im]) && t.Text? && im.Image?
    requires im.id in payloads
    ensures Sync(map[], listing, payloads)
            == Synced(map[Cliphist.CacheKey(im) := payloads[im.id]], [Cliphist.Decode(Cliphist.DecodeArg(im.id))], Ok(0))
  {
    PairParts(t, im);
    PairReconcile(im, payloads);
  }

  /** The chooser printing `0` is the choice of row 0. */
  lemma ChooseFirstAnswer()
    ensures Rofi.DecodeResult(Rofi.Success, "0\n") == Ok(Rofi.Selection(0))
  {
    Rofi.DecodeChosenRow(Rofi.Success, 0);
    assert Strings.NatToString(0) == "0";
  }

  /** On a text list holding just one text, choosing row 0 copies the
      text's payload and ends the loop. */
  lemma ChooseOnlyText(s: Session, t: Cliphist.Entry, payloads: map<string, seq<bv8>>, undeletable: set<string>)
    requires s.mode == Text && s.txt.entries == [t] && t.id in payloads
    ensures var eff := Next(s, Rofi.Selection(0), payloads, undeletable);
      eff.calls == [Cliphist.Decode(Cliphist.DecodeArg(t.id))] && eff.copied == [payloads[t.id]] && eff.outcome == Exit
  {
    NextSelection(s, 0, payloads, undeletable);
  }

  /** The first iteration over a history of one text then one image, with
      the text list on screen holding the text: it fetches the thumbnail,
      then the choice of row 0 copies the text's payload and ends the loop. */
  lemma PairStep(listing: Cliphist.Listing, t: Cliphist.Entry, im: Cliphist.Entry, s: Session,
                 dir: string, payloads: map<string, seq<bv8>>, undeletable: set<string>)
    requires Cliphist.List(listing) == Ok([t, im]) && t.Text? && im.Image?
    requires s.mode == Text && s.txt.entries == [t]
    requires t.id in payloads && im.id in payloads
    ensures var r := Step(World(s, map[]), Answer(listing, Rofi.Success, "0\n"), dir, payloads, undeletable);
      r.outcome == Exit && r.copied == [payloads[t.id]]
      && r.calls == [Cliphist.Decode(Cliphist.DecodeArg(im.id)), Cliphist.Decode(Cliphist.DecodeArg(t.id))]
      && r.next.files == map[Cliphist.CacheKey(im) := payloads[im.id]]
  {
    var w := World(s, map[]);
    var a := Answer(listing, Rofi.Success, "0\n");
    var fetch := Cliphist.Decode(Cliphist.DecodeArg(im.id));
    var copy := Cliphist.Decode(Cliphist.DecodeArg(t.id));
    PairSync(listing, t, im, payloads);
    ChooseFirstAnswer();
    ChooseOnlyText(s, t, payloads, undeletable);
    StepAnswered(w, a, dir, payloads, undeletable);
    assert [fetch] + [copy] == [fetch, copy];
  }

  /** A loop whose first iteration ends it is that iteration. */
  lemma DriveStops(w: World, a: Answer, dir: string, payloads: map<string, seq<bv8>>, undeletable: set<string>)
    requires Step(w, a, dir, payloads, undeletable).outcome != Continue
    ensures Drive(w, [a], dir, payloads, undeletable) == Step(w, a, dir, payloads, undeletable)
  {
  }

  /** End to end, for a history of one text then one image whose payloads
      the store knows (such as the sample, by `SampleListing`): the run
      starts on the text list holding the text; the first iteration fetches
      the image's thumbnail into the empty cache, and choosing row 0 then
      copies the text's payload and ends the run. */
  lemma Scenario(listing: Cliphist.Listing, t: Cliphist.Entry, im: Cliphist.Entry, config: ClipHistModeConfig,
                 dir: string, payloads: map<string, seq<bv8>>, undeletable: set<string>)
    requires Cliphist.List(listing) == Ok([t, im]) && t.Text? && im.Image?
    requires t.id in payloads && im.id in payloads
    ensures Start(listing, config).Ok?
      && Start(listing, config).value.txt.entries == [t]
      && Start(listing, config).value.img.entries == [im]
      && var d := Drive(World(Start(listing, config).value, map[]), [Answer(listing, Rofi.Success, "0\n")],
                        dir, payloads, undeletable);
        d.outcome == Exit && d.copied == [payloads[t.id]]
        && d.calls == [Cliphist.Decode(Cliphist.DecodeArg(im.id)), Cliphist.Decode(Cliphist.DecodeArg(t.id))]
        && d.next.files == map[Cliphist.CacheKey(im) := payloads[im.id]]
  {
    PairStart(listing, t, im, config);
    PairStep(listing, t, im, Initial([t, im], config), dir, payloads, undeletable);
    DriveStops(World(Initial([t, im], config), map[]), Answer(listing, Rofi.Success, "0\n"),
               dir, payloads, undeletable);
  }

  // ---------------------------------------------------------------------------
  // The mode object

  class ClipHistMode {
    const cache: Cache.SimpleCache
    const cliphist: Cliphist.ClipHist
    const clipboard: Clipboard.Clipboard
    var txt: RofiState
    var img: RofiState
    var mode: Mode

    /** The lists and the mode, as a value. */
    function State(): Session
      reads this
    {
      Session(txt, img, mode)
    }

    constructor (cache: Cache.SimpleCache, cliphist: Cliphist.ClipHist, clipboard: Clipboard.Clipboard,
                 session: Session)
      ensures this.cache == cache && this.cliphist == cliphist && this.clipboard == clipboard
      ensures State() == session
    {
      this.cache := cache;
      this.cliphist := cliphist;
      this.clipboard := clipboard;
      txt := session.txt;
      img := session.img;
      mode := session.mode;
    }

    /** `ClipHistMode::new`: list the history, split it into texts and
        images, and set up each list's options; the text list comes first. */
    static method New(cache: Cache.SimpleCache, cliphist: Cliphist.ClipHist, clipboard: Clipboard.Clipboard,
                      listing: Cliphist.Listing, config: ClipHistModeConfig)
      returns (r: Result<ClipHistMode>)
      ensures r.Err? ==> Start(listing, config) == Err(r.error)
      ensures r.Ok? ==> Start(listing, config) == Ok(r.value.State())
      ensures r.Ok? ==> fresh(r.value) && r.value.cache == cache && r.value.cliphist == cliphist
                        && r.value.clipboard == clipboard
    {
      var listed := Cliphist.List(listing);
      if listed.Err? {
        return Err(listed.error);
      }
      var entries := listed.value;
      var txt := RofiState(Texts(entries), ModeOptions(Text, config));
      var img := RofiState(Images(entries), ModeOptions(Image, config));
      var m := new ClipHistMode(cache, cliphist, clipboard, Session(txt, img, Text));
      return Ok(m);
    }

    /** Replaces the list on screen (`current` in `run`). */
    method SetCurrent(st: RofiState)
      modifies this
      ensures State() == old(State()).WithCurrent(st)
    {
      if mode == Text {
        txt := st;
      } else {
        img := st;
      }
    }

    /** The `for entry in … { self.cliphist.remove(…)? }` loops. */
    method RemoveEach(doomed: seq<Cliphist.Entry>) returns (outcome: Outcome)
      modifies cliphist
      ensures var r := RemovalRun(doomed, cliphist.undeletable);
        cliphist.log == old(cliphist.log) + r.calls
        && outcome == if r.ok then Continue else Fail(Cliphist.STORE_FAILED)
    {
      var i := 0;
      while i < |doomed|
        invariant 0 <= i <= |doomed|
        invariant RemovalRun(doomed[..i], cliphist.undeletable).ok
        invariant cliphist.log == old(cliphist.log) + RemovalRun(doomed[..i], cliphist.undeletable).calls
      {
        assert doomed[..i + 1][..i] == doomed[..i];
        var removed := cliphist.Remove(doomed[i].id);
        if removed.Err? {
          RemovalRunStuck(doomed[..i + 1], doomed[i + 1..], cliphist.undeletable);
          assert doomed[..i + 1] + doomed[i + 1..] == doomed;
          return Fail(removed.error);
        }
        i := i + 1;
      }
      assert doomed[..i] == doomed;
      return Continue;
    }

    /** The `match key` of `run`, once the row is highlighted. */
    method KeyAction(key: int, id: nat) returns (outcome: Outcome)
      modifies this, cliphist
      ensures var eff := KeyEffect(old(State()), key, id, cliphist.undeletable);
        State() == eff.next && cliphist.log == old(cliphist.log) + eff.calls && outcome == eff.outcome
    {
      var current := State().Current();
      var es := current.entries;
      if key == SHOW_IMAGES {
        mode := Image;
        outcome := Continue;
      } else if key == SHOW_TEXTS {
        mode := Text;
        outcome := Continue;
      } else if key == DELETE_ONE {
        if id >= |es| {
          return Fail(REMOVE_OUT_OF_RANGE);
        }
        var entry := es[id];
        SetCurrent(current.(entries := es[..id] + es[id + 1..]));
        var removed := cliphist.Remove(entry.id);
        assert RemovalRun([entry], cliphist.undeletable) == Removal([DeleteCall(entry)], entry.id !in cliphist.undeletable) by {
          assert [entry][..0] == [];
        }
        outcome := if removed.Err? then Fail(removed.error) else Continue;
      } else if key == DELETE_BEFORE {
        if id > |es| {
          return Fail(DRAIN_OUT_OF_RANGE);
        }
        SetCurrent(current.(entries := es[id..]));
        outcome := RemoveEach(es[..id]);
      } else if key == DELETE_AFTER {
        if id + 1 > |es| {
          return Fail(DRAIN_OUT_OF_RANGE);
        }
        SetCurrent(current.(entries := es[..id + 1]));
        outcome := RemoveEach(es[id + 1..]);
      } else {
        outcome := Fail(ProtocolError(UNEXPECTED_KEY + Strings.IntToString(key)));
      }
    }

    /** The `match` on the chooser's answer in `run`. */
    method Dispatch(res: Rofi.RofiResult) returns (outcome: Outcome)
      modifies this, cliphist, clipboard
      ensures var eff := Next(old(State()), res, cliphist.payloads, cliphist.undeletable);
        State() == eff.next && cliphist.log == old(cliphist.log) + eff.calls
        && clipboard.copied == old(clipboard.copied) + eff.copied && outcome == eff.outcome
    {
      match res {
        case Selection(id) =>
          var current := State().Current();
          SetCurrent(current.(options := current.options.(selectedRow := id)));
          if id >= |current.entries| {
            return Fail(INVALID_ID);
          }
          var value := cliphist.ValueOf(current.entries[id].id);
          if value.Err? {
            return Fail(value.error);
          }
          clipboard.Copy(value.value);
          return Exit;
        case Keyboard(key, id) =>
          var current := State().Current();
          SetCurrent(current.(options := current.options.(selectedRow := id)));
          outcome := KeyAction(key, id);
        case Cancel =>
          return Exit;
        case SignalResult(_) =>
          return Exit;
        case Empty =>
          return Exit;
      }
    }

    /** The first loop of `sync_cache`: fetch and add the thumbnail of every
        image whose key the cache lacks, stopping at the first failure. */
    method FillMissing(imgs: seq<Cliphist.Entry>) returns (r: Result<()>)
      modifies cache, cliphist
      ensures var f := FillCache(old(cache.files), imgs, cliphist.payloads);
        cache.files == f.files && cliphist.log == old(cliphist.log) + f.calls
        && r == if f.ok then Ok(()) else Err(Cliphist.STORE_FAILED)
    {
      var i := 0;
      while i < |imgs|
        invariant 0 <= i <= |imgs|
        invariant FillCache(old(cache.files), imgs[..i], cliphist.payloads).ok
        invariant cache.files == FillCache(old(cache.files), imgs[..i], cliphist.payloads).files
        invariant cliphist.log == old(cliphist.log) + FillCache(old(cache.files), imgs[..i], cliphist.payloads).calls
      {
        assert imgs[..i + 1][..i] == imgs[..i];
        var entry := imgs[i];
        if !cache.Exists(Cliphist.CacheKey(entry)) {
          var value := cliphist.ValueOf(entry.id);
          if value.Err? {
            FillStuck(old(cache.files), imgs[..i + 1], imgs[i + 1..], cliphist.payloads);
            assert imgs[..i + 1] + imgs[i + 1..] == imgs;
            return Err(value.error);
          }
          cache.Add(entry, value.value);
        }
        i := i + 1;
      }
      assert imgs[..i] == imgs;
      return Ok(());
    }

    /** `sync_cache`: fetch the thumbnails of listed images the cache lacks,
        then prune every file that is not a listed image's. */
    method SyncCache(listing: Cliphist.Listing) returns (r: Result<nat>)
      modifies cache, cliphist
      ensures var sy := Sync(old(cache.files), listing, cliphist.payloads);
        cache.files == sy.files && cliphist.log == old(cliphist.log) + sy.calls && r == sy.result
    {
      var listed := Cliphist.List(listing);
      if listed.Err? {
        return Err(listed.error);
      }
      var imgs := Images(listed.value);
      var filled := FillMissing(imgs);
      if filled.Err? {
        return Err(filled.error);
      }
      var exclusions := Exclusions(imgs);
      var deleted := cache.Prune(exclusions);
      return Ok(deleted);
    }

    /** The chooser call on the list on screen, and the reaction to its
        answer `status`/`stdout`. */
    method ShowAndDispatch(status: Rofi.ExitStatus, stdout: string) returns (shown: seq<Rofi.PickerCall>, outcome: Outcome)
      modifies this, cliphist, clipboard
      ensures var r := Respond(old(State()), cache.files, cache.dir, status, stdout, cliphist.payloads, cliphist.undeletable);
        State() == r.next.session && shown == r.shown && outcome == r.outcome
        && cliphist.log == old(cliphist.log) + r.calls && clipboard.copied == old(clipboard.copied) + r.copied
    {
      var current := State().Current();
      var call, res := Rofi.Run(current.entries, current.options, cache, status, stdout);
      shown := [call];
      if res.Err? {
        return shown, Fail(res.error);
      }
      outcome := Dispatch(res.value);
    }

    /** One iteration of the loop in `run`, with the world's answer `a`. */
    method RunOnce(a: Answer) returns (shown: seq<Rofi.PickerCall>, outcome: Outcome)
      modifies this, cache, cliphist, clipboard
      ensures var r := Step(old(World(State(), cache.files)), a, cache.dir, cliphist.payloads, cliphist.undeletable);
        World(State(), cache.files) == r.next && shown == r.shown && outcome == r.outcome
        && cliphist.log == old(cliphist.log) + r.calls && clipboard.copied == old(clipboard.copied) + r.copied
    {
      ghost var w := World(State(), cache.files);
      ghost var sy := Sync(w.files, a.listing, cliphist.payloads);
      var synced := SyncCache(a.listing);
      if synced.Err? {
        assert Step(w, a, cache.dir, cliphist.payloads, cliphist.undeletable)
          == Round(World(w.session, sy.files), [], sy.calls, [], Fail(sy.result.error));
        return [], Fail(synced.error);
      }
      ghost var r := Respond(w.session, sy.files, cache.dir, a.status, a.stdout, cliphist.payloads, cliphist.undeletable);
      assert Step(w, a, cache.dir, cliphist.payloads, cliphist.undeletable) == r.(calls := sy.calls + r.calls);
      ghost var synchronised := cliphist.log;
      assert synchronised == old(cliphist.log) + sy.calls;
      shown, outcome := ShowAndDispatch(a.status, a.stdout);
      Strings.AppendAssoc(old(cliphist.log), sy.calls, r.calls);
    }

    /** `run` over a finite script of answers: iterate until an iteration
        ends the loop or the script runs out. */
    method Run(answers: seq<Answer>) returns (shown: seq<Rofi.PickerCall>, outcome: Outcome)
      modifies this, cache, cliphist, clipboard
      ensures var d := Drive(old(World(State(), cache.files)), answers, cache.dir, cliphist.payloads, cliphist.undeletable);
        World(State(), cache.files) == d.next && shown == d.shown && outcome == d.outcome
        && cliphist.log == old(cliphist.log) + d.calls && clipboard.copied == old(clipboard.copied) + d.copied
    {
      ghost var total := Drive(World(State(), cache.files), answers, cache.dir, cliphist.payloads, cliphist.undeletable);
      shown := [];
      var i := 0;
      while i < |answers|
        invariant 0 <= i <= |answers|
        invariant var rest := Drive(World(State(), cache.files), answers[i..], cache.dir, cliphist.payloads, cliphist.undeletable);
          total.next == rest.next && total.outcome == rest.outcome
          && total.shown == shown + rest.shown
          && old(cliphist.log) + total.calls == cliphist.log + rest.calls
          && old(clipboard.copied) + total.copied == clipboard.copied + rest.copied
      {
        ghost var w := World(State(), cache.files);
        ghost var r := Step(w, answers[i], cache.dir, cliphist.payloads, cliphist.undeletable);
        ghost var shownBefore, logBefore, copiedBefore := shown, cliphist.log, clipboard.copied;
        assert answers[i..][0] == answers[i];
        assert answers[i..][1..] == answers[i + 1..];
        var s, o := RunOnce(answers[i]);
        shown := shown + s;
        if o != Continue {
          return shown, o;
        }
        ghost var rest := Drive(r.next, answers[i + 1..], cache.dir, cliphist.payloads, cliphist.undeletable);
        Strings.AppendAssoc(shownBefore, r.shown, rest.shown);
        Strings.AppendAssoc(logBefore, r.calls, rest.calls);
        Strings.AppendAssoc(copiedBefore, r.copied, rest.copied);
        i := i + 1;
      }
      assert answers[i..] == [];
      assert shown + [] == shown;
      assert cliphist.log + [] == cliphist.log && clipboard.copied + [] == clipboard.copied;
      return shown, Continue;
    }
  }
}
