/** The highlight controller and its style cache: on every trigger it clears
    the ranges of every cached decoration style, and for a non-empty
    selection scans the document, resolves (or creates) the style keyed by
    the exact selected text and applies the ranges under it. */
module Highlighting {

  import opened Wrappers
  import opened Scanner

  /** An opaque decoration-style handle. Creating a style yields a handle
      never handed out before. */
  type StyleId = nat

  /** What a trigger reads from the editor, taken from one snapshot: the
      selected text and the whole document text. */
  datatype Editor = Editor(selection: string, text: string)

  /** The engine's state as a value: the style cache (`decorationTypes`),
      the ranges the editor currently shows for each style, and the next
      fresh handle. */
  datatype Engine = Engine(styles: map<string, StyleId>, applied: map<StyleId, seq<Span>>, nextStyle: StyleId)
  {
    /** Every cached handle was handed out before `nextStyle`, distinct
        selections own distinct handles, and the editor holds ranges for
        exactly the cached handles. */
    ghost predicate Valid()
    {
      && (forall key :: key in styles ==> styles[key] < nextStyle)
      && (forall k1, k2 :: k1 in styles && k2 in styles && k1 != k2 ==> styles[k1] != styles[k2])
      && applied.Keys == styles.Values
    }
  }

  /** The state before the first trigger: an empty cache. */
  const Initial := Engine(map[], map[], 0)

  /** The applied table after every cached style has been given no ranges. */
  function ClearAll(e: Engine): map<StyleId, seq<Span>>
  {
    e.applied + map id | id in e.styles.Values :: []
  }

  /** One run of `updateDecorations` on the engine's state. */
  function Trigger(e: Engine, editor: Option<Editor>): Engine
  {
    match editor
    case None => e
    case Some(ed) =>
      var cleared := ClearAll(e);
      if |ed.selection| == 0 then
        e.(applied := cleared)
      else
        var ranges := Occurrences(ed.text, ed.selection);
        if ed.selection in e.styles then
          e.(applied := cleared[e.styles[ed.selection] := ranges])
        else
          Engine(e.styles[ed.selection := e.nextStyle], cleared[e.nextStyle := ranges], e.nextStyle + 1)
  }

  /** An empty selection leaves the cache and the handle counter alone,
      leaves every cached style with no ranges, and does not depend on the
      document text, since no scan happens. */
  lemma TriggerEmptySelection(e: Engine, text: string, other: string)
    ensures var r := Trigger(e, Some(Editor([], text)));
            && r.styles == e.styles && r.nextStyle == e.nextStyle
            && r.applied.Keys == e.applied.Keys + e.styles.Values
            && (forall id :: id in e.styles.Values ==> r.applied[id] == [])
            && (forall id :: id in r.applied && id !in e.styles.Values ==> r.applied[id] == e.applied[id])
            && r == Trigger(e, Some(Editor([], other)))
  {
  }

  /** A non-empty selection ends up cached; its existing style is reused
      unchanged, a new one is created only on a miss, and no other key is
      added, removed or altered. */
  lemma TriggerCache(e: Engine, ed: Editor)
    requires ed.selection != []
    ensures var r := Trigger(e, Some(ed));
            && r.styles.Keys == e.styles.Keys + {ed.selection}
            && (forall key :: key in e.styles ==> r.styles[key] == e.styles[key])
            && (ed.selection in e.styles ==> r.styles == e.styles && r.nextStyle == e.nextStyle)
            && (ed.selection !in e.styles ==> r.styles[ed.selection] == e.nextStyle && r.nextStyle == e.nextStyle + 1)
  {
  }

  /** After a non-empty selection the style of that selection carries
      exactly its occurrences in the document, and every other cached style
      carries none. */
  lemma TriggerApplies(e: Engine, ed: Editor)
    requires ed.selection != []
    ensures var r := Trigger(e, Some(ed));
            && ed.selection in r.styles
            && r.applied.Keys == e.applied.Keys + e.styles.Values + {r.styles[ed.selection]}
            && r.applied[r.styles[ed.selection]] == Occurrences(ed.text, ed.selection)
            && (forall id :: id in e.styles.Values && id != r.styles[ed.selection] ==> r.applied[id] == [])
  {
  }

  /** Creating a style for a selection not yet cached keeps the cache
      consistent: the new handle is fresh. */
  lemma CreatingStylePreservesValid(e: Engine, ed: Editor)
    requires e.Valid() && ed.selection != [] && ed.selection !in e.styles
    ensures Trigger(e, Some(ed)).Valid()
  {
    var r := Trigger(e, Some(ed));
    assert r.styles == e.styles[ed.selection := e.nextStyle];
    ValuesOfInsert(e.styles, ed.selection, e.nextStyle);
  }

  /** Inserting a new key adds exactly its value to the values. */
  lemma ValuesOfInsert(m: map<string, StyleId>, k: string, v: StyleId)
    requires k !in m
    ensures m[k := v].Values == m.Values + {v}
  {
    forall id | id in m.Values ensures id in m[k := v].Values {
      var key :| key in m && m[key] == id;
      assert m[k := v][key] == id;
    }
    assert m[k := v][k] == v;
  }

  /** A trigger keeps the cache consistent: in particular the style it
      creates is new, so two different selections, even of equal length,
      never share a style. */
  lemma TriggerPreservesValid(e: Engine, editor: Option<Editor>)
    requires e.Valid()
    ensures Trigger(e, editor).Valid()
  {
    if editor.Some? && editor.value.selection != [] && editor.value.selection !in e.styles {
      CreatingStylePreservesValid(e, editor.value);
    }
  }

  /** Clearing twice is clearing once. */
  lemma ClearAllTwice(e: Engine, a: map<StyleId, seq<Span>>)
    requires a == ClearAll(e)
    ensures ClearAll(e.(applied := a)) == a
  {
  }

  /** Clearing again, with one more style cached, and setting the same
      ranges under that style gives back the same table. */
  lemma ReclearAndSet(e: Engine, r: Engine, style: StyleId, ranges: seq<Span>)
    requires r.applied == ClearAll(e)[style := ranges]
    requires r.styles.Values == e.styles.Values + {style}
    ensures ClearAll(r)[style := ranges] == r.applied
  {
    var c := ClearAll(r)[style := ranges];
    assert c.Keys == r.applied.Keys;
    forall id | id in c ensures c[id] == r.applied[id] {
      if id != style && id in r.styles.Values {
        assert id in e.styles.Values;
      }
    }
  }

  /** Repeating a trigger with a non-empty selection reuses the style the
      first run resolved and sets the same ranges. */
  lemma NonEmptyTriggerIdempotent(e: Engine, ed: Editor)
    requires ed.selection != []
    ensures Trigger(Trigger(e, Some(ed)), Some(ed)) == Trigger(e, Some(ed))
  {
    var r := Trigger(e, Some(ed));
    var style := r.styles[ed.selection];
    var ranges := Occurrences(ed.text, ed.selection);
    assert r.applied == ClearAll(e)[style := ranges];
    if ed.selection in e.styles {
      assert r.styles == e.styles;
    } else {
      assert r.styles == e.styles[ed.selection := e.nextStyle];
      ValuesOfInsert(e.styles, ed.selection, e.nextStyle);
    }
    ReclearAndSet(e, r, style, ranges);
  }

  /** Repeating a trigger with the same selection and text changes nothing
      more: the applied table, the cache and the handle counter are those
      of the first run. */
  lemma TriggerIdempotent(e: Engine, editor: Option<Editor>)
    ensures Trigger(Trigger(e, editor), editor) == Trigger(e, editor)
  {
    if editor.Some? {
      if editor.value.selection == [] {
        ClearAllTwice(e, ClearAll(e));
      } else {
        NonEmptyTriggerIdempotent(e, editor.value);
      }
    }
  }

  /** A trigger adds at most one cache entry, and twice the same trigger
      adds at most one in total. */
  lemma TriggerGrowsCacheByAtMostOne(e: Engine, editor: Option<Editor>)
    ensures |Trigger(e, editor).styles| <= |e.styles| + 1
    ensures |Trigger(Trigger(e, editor), editor).styles| <= |e.styles| + 1
  {
    var r := Trigger(e, editor);
    if editor.Some? && editor.value.selection != [] {
      assert r.styles.Keys == e.styles.Keys + {editor.value.selection};
      assert |r.styles.Keys| <= |e.styles.Keys| + 1;
    }
    TriggerIdempotent(e, editor);
  }

  /** The triggers of a session, one after another. */
  function Run(e: Engine, triggers: seq<Option<Editor>>): Engine
    decreases |triggers|
  {
    if triggers == [] then e else Run(Trigger(e, triggers[0]), triggers[1..])
  }

  /** The non-empty selections among a session's triggers. */
  ghost function SelectionsSeen(triggers: seq<Option<Editor>>): set<string>
  {
    set k | 0 <= k < |triggers| && triggers[k].Some? && triggers[k].value.selection != [] :: triggers[k].value.selection
  }

  lemma SelectionsSeenSplit(triggers: seq<Option<Editor>>)
    requires triggers != []
    ensures SelectionsSeen(triggers)
            == (if triggers[0].Some? && triggers[0].value.selection != [] then {triggers[0].value.selection} else {})
               + SelectionsSeen(triggers[1..])
  {
    var tail := triggers[1..];
    forall s | s in SelectionsSeen(tail) ensures s in SelectionsSeen(triggers) {
      var k :| 0 <= k < |tail| && tail[k].Some? && tail[k].value.selection != [] && tail[k].value.selection == s;
      assert triggers[k + 1] == tail[k];
    }
    forall s | s in SelectionsSeen(triggers) && s !in SelectionsSeen(tail)
      ensures triggers[0].Some? && triggers[0].value.selection == s && s != []
    {
      var k :| 0 <= k < |triggers| && triggers[k].Some? && triggers[k].value.selection != [] && triggers[k].value.selection == s;
    }
  }

  /** The cache never evicts: after any session it holds exactly the keys
      it held before plus every non-empty selection seen, and each existing
      key keeps its style. */
  lemma {:induction false} RunCache(e: Engine, triggers: seq<Option<Editor>>)
    decreases |triggers|
    ensures Run(e, triggers).styles.Keys == e.styles.Keys + SelectionsSeen(triggers)
    ensures forall key :: key in e.styles ==> Run(e, triggers).styles[key] == e.styles[key]
  {
    if triggers != [] {
      RunCache(Trigger(e, triggers[0]), triggers[1..]);
      SelectionsSeenSplit(triggers);
    }
  }

  /** A session keeps the cache consistent. */
  lemma {:induction false} RunPreservesValid(e: Engine, triggers: seq<Option<Editor>>)
    requires e.Valid()
    decreases |triggers|
    ensures Run(e, triggers).Valid()
  {
    if triggers != [] {
      TriggerPreservesValid(e, triggers[0]);
      RunPreservesValid(Trigger(e, triggers[0]), triggers[1..]);
    }
  }

  /** Two different selections of equal length, triggered one after the
      other, end up with two different styles. */
  lemma EqualLengthSelectionsGetDistinctStyles(text: string, s1: string, s2: string)
    requires |s1| == |s2| > 0 && s1 != s2
    ensures var r := Run(Initial, [Some(Editor(s1, text)), Some(Editor(s2, text))]);
            s1 in r.styles && s2 in r.styles && r.styles[s1] != r.styles[s2]
  {
    var triggers := [Some(Editor(s1, text)), Some(Editor(s2, text))];
    RunCache(Initial, triggers);
    RunPreservesValid(Initial, triggers);
    assert triggers[0].value.selection == s1 && triggers[1].value.selection == s2;
    assert s1 in SelectionsSeen(triggers) && s2 in SelectionsSeen(triggers);
  }

  /** The engine as the source keeps it: the module-level cache map and the
      editor's decorations, updated in place by `Update`. */
  class Highlighter {
    var styles: map<string, StyleId>
    var applied: map<StyleId, seq<Span>>
    var nextStyle: StyleId

    ghost function Model(): Engine
      reads this
    {
      Engine(styles, applied, nextStyle)
    }

    ghost predicate Valid()
      reads this
    {
      Model().Valid()
    }

    constructor ()
      ensures Valid() && Model() == Initial
    {
      styles, applied, nextStyle := map[], map[], 0;
    }

    /** `decorationTypes.forEach(...)`: give every cached style no ranges. */
    method ClearStyles()
      requires Valid()
      modifies this
      ensures Valid()
      ensures styles == old(styles) && nextStyle == old(nextStyle)
      ensures applied == ClearAll(old(Model()))
    {
      var pending := styles.Keys;
      while pending != {}
        invariant pending <= styles.Keys
        invariant styles == old(styles) && nextStyle == old(nextStyle)
        invariant applied.Keys == old(applied).Keys
        invariant forall key :: key in styles && key !in pending ==> applied[styles[key]] == []
        decreases pending
      {
        var key :| key in pending;
        applied := applied[styles[key] := []];
        pending := pending - {key};
      }
      forall id | id in applied ensures applied[id] == [] {
        var key :| key in styles && styles[key] == id;
      }
    }

    /** `decorationTypes.get(sel)`, and on a miss a fresh style that
        `decorationTypes.set` stores under `sel`. */
    method StyleFor(sel: string) returns (style: StyleId)
      modifies this`styles, this`nextStyle
      ensures sel in old(styles) ==> style == old(styles)[sel] && styles == old(styles) && nextStyle == old(nextStyle)
      ensures sel !in old(styles) ==>
                && style == old(nextStyle) && nextStyle == old(nextStyle) + 1
                && styles == old(styles)[sel := style]
    {
      if sel in styles {
        style := styles[sel];
      } else {
        // createTextEditorDecorationType returns a handle never seen before
        style := nextStyle;
        nextStyle := nextStyle + 1;
        styles := styles[sel := style];
      }
    }

    /** `updateDecorations(editor)`. */
    method Update(editor: Option<Editor>)
      requires Valid()
      modifies this
      ensures Valid()
      ensures editor.None? ==> Model() == old(Model())
      ensures Model() == Trigger(old(Model()), editor)
    {
      if editor.None? {
        return;
      }
      var ed := editor.value;
      ClearStyles();
      if |ed.selection| == 0 {
        return;
      }
      var ranges := Scan(ed.text, ed.selection);
      var style := StyleFor(ed.selection);
      applied := applied[style := ranges];
      assert Model() == Trigger(old(Model()), editor);
      TriggerPreservesValid(old(Model()), editor);
    }
  }
}
