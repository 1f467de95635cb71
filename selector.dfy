/**
 * The selector pane (scrapnote/src/component/selector.rs): a text input that
 * filters the note list through the server, a highlighted entry moved with
 * Ctrl+P / Ctrl+N, and Enter to pick a note.
 *
 * The component runs as wasm32, where `usize` has 32 bits; the model follows a
 * release build, in which `usize` arithmetic wraps.
 */
module Selector {

  import opened Wrappers
  import opened Common
  import Utf8
  import PercentEncoding

  const UsizeLimit: int := 0x1_0000_0000

  type usize = n: int | 0 <= n < UsizeLimit

  /** A `Vec`: its length is a `usize`. */
  type Vec<T> = s: seq<T> | |s| < UsizeLimit witness []

  /** `a - b` on `usize` in a release build: wraps around modulo 2^32. */
  function WrappingSub(a: usize, b: usize): (r: usize)
    ensures a >= b ==> r == a - b
    ensures a < b ==> r == a - b + UsizeLimit
  {
    (a - b) % UsizeLimit
  }

  function Min(a: int, b: int): int
  {
    if a <= b then a else b
  }

  // ------------------------------------------------------------ messages

  datatype CaretPosition = Start | End

  /** `Msg`; `Nothing` is `Msg::None`, which carries the key event's composing flag. */
  datatype Msg =
    | Nothing(isComposing: bool)
    | Input(value: string)
    | MoveCaretToFirst
    | MoveCaretToEnd
    | MoveSelectionUp
    | MoveSelectionDown
    | Enter
    | UpdateFiles(files: Vec<Item>)

  /** The chords whose browser default `onkeydown` suppresses: Ctrl+a, Ctrl+e, Ctrl+p, Ctrl+n. */
  predicate ShouldPreventDefault(ctrlKey: bool, key: string)
    ensures ShouldPreventDefault(ctrlKey, key) ==> ctrlKey && |key| == 1 && 'a' <= key[0] <= 'z'
    ensures !ctrlKey || key == "Enter" ==> !ShouldPreventDefault(ctrlKey, key)
  {
    (ctrlKey && key == "a") || (ctrlKey && key == "e") || (ctrlKey && key == "p") || (ctrlKey && key == "n")
  }

  /** The message `onkeydown` sends for a key event. */
  function KeyDownMsg(ctrlKey: bool, key: string, isComposing: bool): (m: Msg)
    ensures ShouldPreventDefault(ctrlKey, key) <==> m in {MoveCaretToFirst, MoveCaretToEnd, MoveSelectionUp, MoveSelectionDown}
    ensures m == Enter <==> key == "Enter"
    ensures m.Nothing? <==> !ShouldPreventDefault(ctrlKey, key) && key != "Enter"
    ensures m.Nothing? ==> m.isComposing == isComposing
    ensures !m.Input? && !m.UpdateFiles?
    ensures m == MoveCaretToFirst <==> ctrlKey && key == "a"
    ensures m == MoveCaretToEnd <==> ctrlKey && key == "e"
    ensures m == MoveSelectionUp <==> ctrlKey && key == "p"
    ensures m == MoveSelectionDown <==> ctrlKey && key == "n"
  {
    match (ctrlKey, key)
    case (true, "a") => MoveCaretToFirst
    case (true, "e") => MoveCaretToEnd
    case (true, "p") => MoveSelectionUp
    case (true, "n") => MoveSelectionDown
    case (_, "Enter") => Enter
    case (_, _) => Nothing(isComposing)
  }

  // ------------------------------------------------------------ query

  const FilesPath: string := "/api/files"

  /** The query `query_files` appends: none for empty input, else `?key=` and the percent-encoded UTF-8 bytes. */
  function QueryString(input: string): (q: string)
    ensures q == "" <==> input == ""
  {
    if input == "" then ""
    else "?key=" + PercentEncoding.Encode(Utf8.Encode(input))
  }

  /** The request target of the listing for an input (scheme, host and port left out). */
  function FilesUrl(input: string): (url: string)
    ensures |url| >= |FilesPath| && url[..|FilesPath|] == FilesPath
    ensures url == FilesPath <==> input == ""
  {
    FilesPath + QueryString(input)
  }

  /** The key in a query decodes back to exactly the bytes of the input. */
  lemma QueryStringRoundTrip(input: string)
    requires input != ""
    ensures var q := QueryString(input);
      |q| >= 5 && q[..5] == "?key=" && PercentEncoding.Decode(q[5..]) == Utf8.Encode(input)
  {
    var q := QueryString(input);
    assert q[5..] == PercentEncoding.Encode(Utf8.Encode(input));
    PercentEncoding.DecodeEncode(Utf8.Encode(input));
  }

  // ------------------------------------------------------------ state

  /** The value of `State`. */
  datatype StateValue = StateValue(isComposing: bool, input: string, items: Vec<Item>, listIndex: usize)

  /** `State::new` */
  const Initial: StateValue := StateValue(false, "", [], 0)

  /** The highlight designates an item whenever there is one. */
  predicate IndexInRange(s: StateValue)
  {
    |s.items| > 0 ==> s.listIndex < |s.items|
  }

  /**
   * `on_file_updated`: replaces the items and clamps the highlight to the last
   * item. For an empty list `items.len() - 1` wraps to `usize::MAX`, so the
   * highlight is left as it was.
   */
  function FileUpdated(s: StateValue, files: Vec<Item>): (r: StateValue)
    ensures r.items == files && r.input == s.input && r.isComposing == s.isComposing
    ensures |files| > 0 ==> r.listIndex == Min(s.listIndex, |files| - 1)
    ensures |files| == 0 ==> r.listIndex == s.listIndex
    ensures IndexInRange(r)
  {
    var last := WrappingSub(|files|, 1);
    s.(items := files, listIndex := if last < s.listIndex then last else s.listIndex)
  }

  /** What the selector does besides changing its state. */
  datatype Effect =
    | NoEffect
    | QueryFiles(key: string)
    | MoveCaret(position: CaretPosition)
    | SelectFile(name: string)

  datatype Transition = Transition(next: StateValue, shouldRender: bool, effect: Effect)

  /** The name Enter picks: the highlighted item's, or else the raw input. */
  function Picked(s: StateValue): (name: string)
    ensures IndexInRange(s) && |s.items| > 0 ==> name == s.items[s.listIndex].name
    ensures |s.items| == 0 ==> name == s.input
  {
    if s.listIndex < |s.items| then s.items[s.listIndex].name else s.input
  }

  /** `Selector::update` on the state's value. */
  function Step(s: StateValue, msg: Msg): (r: Transition)
    ensures !msg.UpdateFiles? ==> r.next.items == s.items
    ensures !msg.Nothing? ==> r.next.isComposing == s.isComposing
    ensures msg.Nothing? ==> r.next == s.(isComposing := msg.isComposing)
    ensures !msg.Input? ==> r.next.input == s.input
    ensures !msg.MoveSelectionUp? && !msg.MoveSelectionDown? && !msg.UpdateFiles? ==> r.next.listIndex == s.listIndex
    ensures r.effect.SelectFile? <==> msg == Enter
    ensures r.effect.QueryFiles? ==> msg.Input? && r.next.input == r.effect.key == msg.value
    ensures IndexInRange(s) ==> IndexInRange(r.next)
    ensures r.shouldRender <==> msg.MoveSelectionUp? || msg.MoveSelectionDown? || msg.UpdateFiles?
    ensures msg == MoveCaretToFirst ==> r.effect == MoveCaret(Start)
    ensures msg == MoveCaretToEnd ==> r.effect == MoveCaret(End)
    ensures msg.Nothing? || msg.MoveSelectionUp? || msg.MoveSelectionDown? || msg.UpdateFiles? ==> r.effect == NoEffect
  {
    match msg
    case Nothing(c) => Transition(s.(isComposing := c), false, NoEffect)
    case Input(v) =>
      if !(s.isComposing && v == "") then Transition(s.(input := v), false, QueryFiles(v))
      else Transition(s, false, NoEffect)
    case MoveCaretToFirst => Transition(s, false, MoveCaret(Start))
    case MoveCaretToEnd => Transition(s, false, MoveCaret(End))
    case MoveSelectionUp =>
      Transition(s.(listIndex := if s.listIndex == 0 then 0 else s.listIndex - 1), true, NoEffect)
    case MoveSelectionDown =>
      Transition(s.(listIndex := if s.listIndex + 1 < |s.items| then s.listIndex + 1 else s.listIndex), true, NoEffect)
    case Enter => Transition(s, false, SelectFile(Picked(s)))
    case UpdateFiles(files) => Transition(FileUpdated(s, files), true, NoEffect)
  }

  /** An input is ignored exactly when composing and empty; otherwise it is queried and stored. */
  lemma InputGuard(s: StateValue, v: string)
    ensures var r := Step(s, Input(v));
      if s.isComposing && v == "" then r == Transition(s, false, NoEffect)
      else r == Transition(s.(input := v), false, QueryFiles(v))
  {
  }

  /** Up saturates at 0, down at the last item, and each changes only the highlight. */
  lemma NavigationSaturates(s: StateValue)
    requires IndexInRange(s)
    ensures Step(s, MoveSelectionUp).next == s.(listIndex := if s.listIndex > 0 then s.listIndex - 1 else 0)
    ensures var down := Step(s, MoveSelectionDown).next;
      down == s.(listIndex := down.listIndex) &&
      (|s.items| > 0 ==> down.listIndex == Min(s.listIndex + 1, |s.items| - 1)) &&
      (|s.items| == 0 ==> down.listIndex == s.listIndex)
  {
  }

  /** Enter picks the highlighted item's name when there is one, else the raw (possibly empty) input. */
  lemma EnterPicks(s: StateValue)
    ensures Step(s, Enter) == Transition(s, false, SelectFile(Picked(s)))
    ensures IndexInRange(s) && |s.items| > 0 ==> Picked(s) == s.items[s.listIndex].name
    ensures |s.items| == 0 ==> Picked(s) == s.input
  {
  }

  /** The value after a sequence of messages. */
  function Run(s: StateValue, msgs: seq<Msg>): StateValue
    decreases |msgs|
  {
    if msgs == [] then s else Run(Step(s, msgs[0]).next, msgs[1..])
  }

  /** From the initial state the highlight always designates an item when there is one. */
  lemma {:induction false} RunKeepsIndexInRange(s: StateValue, msgs: seq<Msg>)
    requires IndexInRange(s)
    ensures IndexInRange(Run(s, msgs))
    decreases |msgs|
  {
    if msgs != [] {
      RunKeepsIndexInRange(Step(s, msgs[0]).next, msgs[1..]);
    }
  }

  /** No UpdateFiles comes after index `i`. */
  predicate NoUpdateAfter(msgs: seq<Msg>, i: int)
  {
    forall j :: 0 <= j < |msgs| && i < j ==> !msgs[j].UpdateFiles?
  }

  /**
   * The list shown is the list of the last UpdateFiles (the one no other
   * follows), or the initial one if none came.
   */
  lemma {:induction false} RunShowsLastUpdate(s: StateValue, msgs: seq<Msg>)
    ensures var r := Run(s, msgs);
      (NoUpdateAfter(msgs, -1) && r.items == s.items) ||
      (exists i :: 0 <= i < |msgs| && msgs[i].UpdateFiles? && r.items == msgs[i].files && NoUpdateAfter(msgs, i))
    ensures NoUpdateAfter(msgs, -1) ==> Run(s, msgs).items == s.items
    decreases |msgs|
  {
    if msgs != [] {
      var next := Step(s, msgs[0]).next;
      var rest := msgs[1..];
      RunShowsLastUpdate(next, rest);
      var r := Run(next, rest);
      assert Run(s, msgs) == r;
      if NoUpdateAfter(rest, -1) && r.items == next.items {
        if msgs[0].UpdateFiles? {
          assert NoUpdateAfter(msgs, 0) by {
            forall j | 0 <= j < |msgs| && 0 < j
              ensures !msgs[j].UpdateFiles?
            {
              assert msgs[j] == rest[j - 1];
            }
          }
        } else {
          assert NoUpdateAfter(msgs, -1) by {
            forall j | 0 <= j < |msgs|
              ensures !msgs[j].UpdateFiles?
            {
              if j > 0 {
                assert msgs[j] == rest[j - 1];
              }
            }
          }
        }
      } else {
        var i :| 0 <= i < |rest| && rest[i].UpdateFiles? && r.items == rest[i].files && NoUpdateAfter(rest, i);
        assert msgs[i + 1] == rest[i];
        assert NoUpdateAfter(msgs, i + 1) by {
          forall j | 0 <= j < |msgs| && i + 1 < j
            ensures !msgs[j].UpdateFiles?
          {
            assert msgs[j] == rest[j - 1];
          }
        }
        assert !NoUpdateAfter(msgs, -1);
      }
    }
  }

  // ------------------------------------------------------------ classes

  /** `State`, updated in place. */
  class State {

    var isComposing: bool
    var input: string
    var items: Vec<Item>
    var listIndex: usize

    function Value(): StateValue
      reads this
    {
      StateValue(isComposing, input, items, listIndex)
    }

    /** `State::new` */
    constructor ()
      ensures Value() == Initial
    {
      isComposing, input, items, listIndex := false, "", [], 0;
    }

    /** `on_input` */
    method OnInput(input: string)
      modifies this
      ensures Value() == old(Value()).(input := input)
    {
      this.input := input;
    }

    /** `on_composing_state_changed` */
    method OnComposingStateChanged(isComposing: bool)
      modifies this
      ensures Value() == old(Value()).(isComposing := isComposing)
    {
      this.isComposing := isComposing;
    }

    /** `on_file_updated`, with the release build's wrapping subtraction. */
    method OnFileUpdated(files: Vec<Item>)
      modifies this
      ensures Value() == FileUpdated(old(Value()), files)
    {
      items := files;
      if WrappingSub(|items|, 1) < listIndex {
        listIndex := WrappingSub(|items|, 1);
      }
    }
  }

  /** An outstanding listing request; dropping it (replacing the field) cancels its callback. */
  class FetchTask {

    const url: string

    constructor (url: string)
      ensures this.url == url
    {
      this.url := url;
    }
  }

  /** `Props`: whether the selector has focus (the callbacks are the SelectFile effect). */
  datatype Props = Props(focus: bool)

  class Selector {

    var props: Props
    const state: State
    var fetchTask: FetchTask?

    /** `Selector::create` */
    constructor (props: Props)
      ensures this.props == props && fresh(state) && state.Value() == Initial && fetchTask == null
    {
      this.props := props;
      state := new State();
      fetchTask := null;
    }

    /** `query_files`: a new request replaces (and so cancels) the outstanding one. */
    method QueryFiles(input: string)
      modifies this`fetchTask
      ensures fresh(fetchTask) && fetchTask.url == FilesUrl(input)
    {
      fetchTask := new FetchTask(FilesUrl(input));
    }

    /** `Selector::update`; the returned flag is `ShouldRender`. */
    method Update(msg: Msg) returns (shouldRender: bool, effect: Effect)
      modifies this`fetchTask, state
      ensures Transition(state.Value(), shouldRender, effect) == Step(old(state.Value()), msg)
      ensures effect.QueryFiles? ==> fresh(fetchTask) && fetchTask.url == FilesUrl(effect.key)
      ensures !effect.QueryFiles? ==> fetchTask == old(fetchTask)
    {
      shouldRender, effect := false, NoEffect;
      match msg {
        case Nothing(c) =>
          state.OnComposingStateChanged(c);
        case Input(v) =>
          if !(state.isComposing && v == "") {
            QueryFiles(v);
            state.OnInput(v);
            effect := Effect.QueryFiles(v);
          }
        case MoveCaretToFirst =>
          effect := MoveCaret(Start);
        case MoveCaretToEnd =>
          effect := MoveCaret(End);
        case MoveSelectionUp =>
          state.listIndex := if state.listIndex == 0 then 0 else state.listIndex - 1;
          shouldRender := true;
        case MoveSelectionDown =>
          if state.listIndex + 1 < |state.items| {
            state.listIndex := state.listIndex + 1;
          }
          shouldRender := true;
        case Enter =>
          if state.listIndex < |state.items| {
            effect := SelectFile(state.items[state.listIndex].name);
          } else {
            effect := SelectFile(state.input);
          }
        case UpdateFiles(files) =>
          state.OnFileUpdated(files);
          shouldRender := true;
      }
    }

    /** `change`: new props; focus moves into the input when `focus` is set. */
    method Change(props: Props) returns (shouldRender: bool, focusInput: bool)
      modifies this`props
      ensures this.props == props && !shouldRender && focusInput == props.focus
    {
      this.props := props;
      shouldRender, focusInput := false, props.focus;
    }

    /** `rendered`: the first render focuses the input and lists every note. */
    method Rendered(firstRender: bool) returns (focusInput: bool)
      modifies this`fetchTask
      ensures focusInput == firstRender
      ensures firstRender ==> fresh(fetchTask) && fetchTask.url == FilesPath
      ensures !firstRender ==> fetchTask == old(fetchTask)
    {
      focusInput := firstRender;
      if firstRender {
        QueryFiles("");
      }
    }

    /**
     * The callback of a listing request. Only the outstanding request's
     * response gets through; the `unwrap` panics on a failed one (None).
     */
    method DeliverFiles(task: FetchTask, response: Option<GetFilesResponse>) returns (applied: bool, panicked: bool)
      requires response.Some? ==> |response.value.files| < UsizeLimit
      modifies this`fetchTask, state
      ensures applied <==> task == old(fetchTask) && response.Some?
      ensures panicked <==> task == old(fetchTask) && response.None?
      ensures applied ==> state.Value() == FileUpdated(old(state.Value()), response.value.files)
      ensures !applied ==> state.Value() == old(state.Value())
      ensures fetchTask == old(fetchTask)
    {
      applied, panicked := false, false;
      if task == fetchTask {
        if response.None? {
          panicked := true;
        } else {
          var _, _ := Update(UpdateFiles(response.value.files));
          applied := true;
        }
      }
    }
  }

  /** Typing "a", "ap", "app": the response for "a" arriving last is discarded. */
  method SupersededQuery(files: Vec<Item>, stale: Vec<Item>)
  {
    var selector := new Selector(Props(true));
    var _, _ := selector.Update(Input("a"));
    var first := selector.fetchTask;
    var _, _ := selector.Update(Input("ap"));
    var _, _ := selector.Update(Input("app"));
    var last := selector.fetchTask;
    assert last != first && last.url == FilesUrl("app");
    var applied, _ := selector.DeliverFiles(last, Some(GetFilesResponse(files)));
    assert applied && selector.state.items == files;
    var staleApplied, _ := selector.DeliverFiles(first, Some(GetFilesResponse(stale)));
    assert !staleApplied && selector.state.items == files && selector.state.input == "app";
  }

  /** With three items, Ctrl+N walks to the last one and stays there. */
  method NavigationStopsAtEnd(a: Item, b: Item, c: Item)
  {
    var selector := new Selector(Props(true));
    var _, _ := selector.Update(UpdateFiles([a, b, c]));
    var _, _ := selector.Update(MoveSelectionDown);
    var _, _ := selector.Update(MoveSelectionDown);
    assert selector.state.listIndex == 2;
    var _, _ := selector.Update(MoveSelectionDown);
    assert selector.state.listIndex == 2;
  }

  /** With the second of two items highlighted, Ctrl+P walks to the first and stays; Enter picks it. */
  method NavigationStopsAtStart(a: Item, b: Item)
  {
    var selector := new Selector(Props(true));
    var _, _ := selector.Update(UpdateFiles([a, b]));
    var _, _ := selector.Update(MoveSelectionDown);
    assert selector.state.listIndex == 1;
    var _, _ := selector.Update(MoveSelectionUp);
    var _, _ := selector.Update(MoveSelectionUp);
    assert selector.state.listIndex == 0;
    var _, effect := selector.Update(Enter);
    assert effect == SelectFile(a.name);
  }
}
