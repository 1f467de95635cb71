/**
 * The application root (scrapnote/src/lib.rs): which pane has focus, and which
 * note the editor is bound to.
 */
module Shell {

  import opened Wrappers

  datatype Focus = Command | Editor

  /** `Msg`: a note picked in the selector, a command picked (unused), the editor releasing focus. */
  datatype Msg = FileSelect(name: string) | CommandSelect(command: string) | FocusCommand

  datatype ShellState = ShellState(focus: Focus, editing: Option<string>)

  /** `ScrapNote::create` */
  const Initial: ShellState := ShellState(Command, None)

  /** `ScrapNote::update` on the two fields. */
  function Step(s: ShellState, msg: Msg): (r: ShellState)
    ensures msg.FileSelect? ==> r == ShellState(Editor, Some(msg.name))
    ensures msg.CommandSelect? ==> r == s
    ensures msg == FocusCommand ==> r.focus == Command
    ensures !msg.FileSelect? ==> r.editing == s.editing
  {
    match msg
    case FileSelect(f) => ShellState(Editor, Some(f))
    case CommandSelect(_) => s
    case FocusCommand => s.(focus := Command)
  }

  /** The state after the messages, in order (the last one applied last). */
  function Run(s: ShellState, msgs: seq<Msg>): ShellState
    decreases |msgs|
  {
    if msgs == [] then s else Step(Run(s, msgs[..|msgs| - 1]), msgs[|msgs| - 1])
  }

  /** The name of the last FileSelect, if any. */
  function LastSelected(msgs: seq<Msg>): Option<string>
    decreases |msgs|
  {
    if msgs == [] then None
    else if msgs[|msgs| - 1].FileSelect? then Some(msgs[|msgs| - 1].name)
    else LastSelected(msgs[..|msgs| - 1])
  }

  /** There is no FileSelect after index `i`. */
  predicate NoSelectAfter(msgs: seq<Msg>, i: int)
  {
    forall j :: 0 <= j < |msgs| && i < j ==> !msgs[j].FileSelect?
  }

  /** LastSelected is the name of the FileSelect that no other one follows, and None when there is no FileSelect. */
  lemma {:induction false} LastSelectedIsLast(msgs: seq<Msg>)
    ensures LastSelected(msgs).None? <==> NoSelectAfter(msgs, -1)
    ensures LastSelected(msgs).Some? ==>
      exists i :: 0 <= i < |msgs| && msgs[i] == FileSelect(LastSelected(msgs).value) && NoSelectAfter(msgs, i)
    decreases |msgs|
  {
    if msgs != [] {
      var front := msgs[..|msgs| - 1];
      LastSelectedIsLast(front);
      assert forall j :: 0 <= j < |front| ==> front[j] == msgs[j];
      if LastSelected(msgs).Some? && !msgs[|msgs| - 1].FileSelect? {
        var i :| 0 <= i < |front| && front[i] == FileSelect(LastSelected(front).value) && NoSelectAfter(front, i);
        assert msgs[i] == front[i];
      }
    }
  }

  /** `editing` is the name of the last FileSelect: nothing else sets it, and nothing resets it. */
  lemma {:induction false} EditingIsLastSelected(msgs: seq<Msg>)
    ensures Run(Initial, msgs).editing == LastSelected(msgs)
    decreases |msgs|
  {
    if msgs != [] {
      EditingIsLastSelected(msgs[..|msgs| - 1]);
    }
  }

  /** `editing` is None exactly when no FileSelect has happened. */
  lemma NotEditingIffNeverSelected(msgs: seq<Msg>)
    ensures Run(Initial, msgs).editing.None? <==> forall i :: 0 <= i < |msgs| ==> !msgs[i].FileSelect?
  {
    EditingIsLastSelected(msgs);
    LastSelectedIsLast(msgs);
  }

  /** The last message that moves focus (FileSelect or FocusCommand), if any. */
  function LastFocusMove(msgs: seq<Msg>): Option<Msg>
    decreases |msgs|
  {
    if msgs == [] then None
    else if !msgs[|msgs| - 1].CommandSelect? then Some(msgs[|msgs| - 1])
    else LastFocusMove(msgs[..|msgs| - 1])
  }

  /** The editor has focus exactly when the last focus move was a FileSelect. */
  lemma {:induction false} FocusFollowsLastMove(msgs: seq<Msg>)
    ensures Run(Initial, msgs).focus == Editor <==> LastFocusMove(msgs).Some? && LastFocusMove(msgs).value.FileSelect?
    decreases |msgs|
  {
    if msgs != [] {
      FocusFollowsLastMove(msgs[..|msgs| - 1]);
    }
  }

  /** What `view` and `view_editor` pass to the two panes. */
  datatype PaneProps = PaneProps(selectorFocus: bool, editorFocus: bool, editorFileName: Option<string>)

  /** The projection of the state onto the panes' props. */
  function View(s: ShellState): (p: PaneProps)
    ensures p.selectorFocus <==> s.focus == Command
    ensures p.editorFocus <==> s.focus == Editor
    ensures p.selectorFocus != p.editorFocus
    ensures p.editorFileName == s.editing
  {
    PaneProps(s.focus == Command, s.focus == Editor, s.editing)
  }

  /** `ScrapNote`, updated in place; `history` records the messages it has handled. */
  class ScrapNote {

    var focus: Focus
    var editing: Option<string>
    ghost var history: seq<Msg>

    ghost predicate Valid()
      reads this
    {
      ShellState(focus, editing) == Run(Initial, history)
    }

    /** `ScrapNote::create` */
    constructor ()
      ensures Valid() && history == []
      ensures focus == Command && editing == None
    {
      focus, editing := Command, None;
      history := [];
    }

    /** `ScrapNote::update`: always asks for a re-render. */
    method Update(msg: Msg) returns (shouldRender: bool)
      requires Valid()
      modifies this
      ensures Valid() && history == old(history) + [msg]
      ensures ShellState(focus, editing) == Step(old(ShellState(focus, editing)), msg)
      ensures shouldRender
    {
      match msg {
        case FileSelect(f) =>
          editing := Some(f);
          focus := Editor;
        case CommandSelect(_) =>
        case FocusCommand =>
          focus := Command;
      }
      history := history + [msg];
      assert history[..|history| - 1] == old(history);
      shouldRender := true;
    }

    /** `view` / `view_editor`: the props each pane receives. */
    function ViewProps(): (p: PaneProps)
      reads this
      ensures p.selectorFocus != p.editorFocus
      ensures p.editorFileName == editing
    {
      View(ShellState(focus, editing))
    }
  }

  /** Picking "hello" binds and focuses the editor; the editor's release returns focus and keeps the binding. */
  method CommitAndRelease()
  {
    var app := new ScrapNote();
    assert app.ViewProps().selectorFocus;
    var _ := app.Update(FileSelect("hello"));
    assert app.ViewProps() == PaneProps(false, true, Some("hello"));
    var _ := app.Update(FocusCommand);
    assert app.ViewProps() == PaneProps(true, false, Some("hello"));
  }
}
