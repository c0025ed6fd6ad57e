/**
 * The callback walk over a decoded NBT tree (StreamingNBTParser.java).
 *
 * The byte decoder is not modelled: a parser is given either the decoded
 * root tag or the message of the exception the decoder threw. A processor is
 * the three callbacks of NBTProcessor written as functions over a state `S`
 * that stands for whatever the processor object mutates; a callback either
 * continues the walk, asks to stop it, or throws.
 *
 * The walk itself (WalkCompound / WalkElements) follows the recursion of
 * processCompoundRecursively. It is proved equal to a reference definition:
 * the pre-order list of callback events of the tree (Events), fed one by one
 * to the processor until a callback does not continue (Run).
 */
module StreamingNbt {
  import opened Wrappers

  /** A decoded tag. Only compounds and lists matter to the walk; every other tag type is a leaf. */
  datatype Tag =
    | Compound(name: string, elements: seq<Tag>)
    | List(name: string, items: seq<Tag>)
    | Leaf(name: string)

  /** One callback: processCompound or processList, with the name and tag it receives. */
  datatype Event = CompoundSeen(name: string, tag: Tag) | ListSeen(name: string, tag: Tag)

  /** A callback returns true (Continue), returns false (Stop), or throws. */
  datatype Reply = Continue | Stop | Throw(error: string)

  datatype Processor<!S> = Processor(
    processCompound: (S, string, Tag) -> (Reply, S),
    processList: (S, string, Tag) -> (Reply, S),
    onError: (S, string) -> S)

  datatype Outcome = Completed | Stopped | Faulted(error: string)

  /** How a walk ended, the processor state it left, and the callbacks it made, in order. */
  datatype Walk<S> = Walk(outcome: Outcome, state: S, trace: seq<Event>)

  /** Makes the one callback `e`. */
  function Fire<S>(p: Processor<S>, s: S, e: Event): (w: Walk<S>)
    ensures w.trace == [e]
  {
    var r := if e.CompoundSeen? then p.processCompound(s, e.name, e.tag) else p.processList(s, e.name, e.tag);
    var outcome := match r.0
      case Continue => Completed
      case Stop => Stopped
      case Throw(err) => Faulted(err);
    Walk(outcome, r.1, [e])
  }

  /** `b` run after `a` completed. */
  function Then<S>(a: Walk<S>, b: Walk<S>): Walk<S>
  {
    Walk(b.outcome, b.state, a.trace + b.trace)
  }

  // ---------------------------------------------------------------------
  // The walk as the source writes it

  /** processCompoundRecursively: the compound's own callback, then its elements unless that callback stopped. */
  function WalkCompound<S>(p: Processor<S>, s: S, name: string, t: Tag): Walk<S>
    requires t.Compound?
    decreases t, 1
  {
    var first := Fire(p, s, CompoundSeen(name, t));
    if first.outcome != Completed then first
    else Then(first, WalkElements(p, first.state, t, 0))
  }

  /**
   * The element loop from index i: a compound is walked recursively, a list
   * gets one processList callback, anything else is skipped; the loop ends at
   * the first element whose walk did not complete.
   */
  function WalkElements<S>(p: Processor<S>, s: S, parent: Tag, i: nat): Walk<S>
    requires parent.Compound? && i <= |parent.elements|
    decreases parent, 0, |parent.elements| - i
  {
    if i == |parent.elements| then Walk(Completed, s, [])
    else
      var e := parent.elements[i];
      var w := if e.Compound? then WalkCompound(p, s, e.name, e)
               else if e.List? then Fire(p, s, ListSeen(e.name, e))
               else Walk(Completed, s, []);
      if w.outcome != Completed then w
      else Then(w, WalkElements(p, w.state, parent, i + 1))
  }

  // ---------------------------------------------------------------------
  // Reference: the pre-order event list, and running a processor over it

  /** Every callback a walk of compound `t` named `name` makes when no callback stops or throws. */
  function Events(name: string, t: Tag): seq<Event>
    requires t.Compound?
    decreases t, 1
  {
    [CompoundSeen(name, t)] + ElementEvents(t, 0)
  }

  function ElementEvents(parent: Tag, i: nat): seq<Event>
    requires parent.Compound? && i <= |parent.elements|
    decreases parent, 0, |parent.elements| - i
  {
    if i == |parent.elements| then []
    else
      var e := parent.elements[i];
      (if e.Compound? then Events(e.name, e) else if e.List? then [ListSeen(e.name, e)] else [])
      + ElementEvents(parent, i + 1)
  }

  /** Feeds the events to the processor in order, up to and including the first one that does not continue. */
  function Run<S>(p: Processor<S>, s: S, es: seq<Event>): Walk<S>
    decreases |es|
  {
    if es == [] then Walk(Completed, s, [])
    else
      var first := Fire(p, s, es[0]);
      if first.outcome != Completed then first
      else Then(first, Run(p, first.state, es[1..]))
  }

  lemma {:induction false} RunAppend<S>(p: Processor<S>, s: S, a: seq<Event>, b: seq<Event>)
    ensures Run(p, s, a + b) == (var ra := Run(p, s, a);
                                 if ra.outcome != Completed then ra else Then(ra, Run(p, ra.state, b)))
    decreases |a|
  {
    if a == [] {
      assert a + b == b;
    } else {
      assert (a + b)[0] == a[0];
      assert (a + b)[1..] == a[1..] + b;
      var first := Fire(p, s, a[0]);
      if first.outcome == Completed {
        RunAppend(p, first.state, a[1..], b);
      }
    }
  }

  lemma RunSingle<S>(p: Processor<S>, s: S, e: Event)
    ensures Run(p, s, [e]) == Fire(p, s, e)
  {
    assert [e][1..] == [];
  }

  /** The walk of a compound makes exactly the callbacks of running the processor over its pre-order events. */
  lemma {:induction false} WalkMatchesPreOrder<S>(p: Processor<S>, s: S, name: string, t: Tag)
    requires t.Compound?
    ensures WalkCompound(p, s, name, t) == Run(p, s, Events(name, t))
    decreases t, 1
  {
    var ev := CompoundSeen(name, t);
    RunAppend(p, s, [ev], ElementEvents(t, 0));
    RunSingle(p, s, ev);
    var first := Fire(p, s, ev);
    if first.outcome == Completed {
      ElementsMatchPreOrder(p, first.state, t, 0);
    }
  }

  lemma {:induction false} ElementsMatchPreOrder<S>(p: Processor<S>, s: S, parent: Tag, i: nat)
    requires parent.Compound? && i <= |parent.elements|
    ensures WalkElements(p, s, parent, i) == Run(p, s, ElementEvents(parent, i))
    decreases parent, 0, |parent.elements| - i
  {
    if i < |parent.elements| {
      var e := parent.elements[i];
      var head := if e.Compound? then Events(e.name, e) else if e.List? then [ListSeen(e.name, e)] else [];
      RunAppend(p, s, head, ElementEvents(parent, i + 1));
      if e.Compound? {
        WalkMatchesPreOrder(p, s, e.name, e);
      } else if e.List? {
        RunSingle(p, s, ListSeen(e.name, e));
      }
      var w := Run(p, s, head);
      if w.outcome == Completed {
        ElementsMatchPreOrder(p, w.state, parent, i + 1);
      }
    }
  }

  /**
   * A run makes the events in order and no callback after the first one that
   * does not continue: its trace is a prefix of the events, all of them when
   * it completed; otherwise the run ends at the callback that stopped or threw,
   * every earlier one having continued.
   */
  lemma {:induction false} RunStopsAtFirstNonContinue<S>(p: Processor<S>, s: S, es: seq<Event>)
    ensures var w := Run(p, s, es);
            && |w.trace| <= |es| && w.trace == es[..|w.trace|]
            && (w.outcome == Completed ==> w.trace == es)
            && (w.outcome != Completed ==>
                  && |w.trace| > 0
                  && var k := |w.trace| - 1;
                     var before := Run(p, s, es[..k]);
                     && before.outcome == Completed
                     && Fire(p, before.state, es[k]) == Walk(w.outcome, w.state, [es[k]]))
    decreases |es|
  {
    if es != [] {
      var first := Fire(p, s, es[0]);
      if first.outcome == Completed {
        var rest := Run(p, first.state, es[1..]);
        RunStopsAtFirstNonContinue(p, first.state, es[1..]);
        if rest.outcome != Completed {
          var k := |rest.trace|;
          assert es[..k][0] == es[0];
          assert es[..k][1..] == es[1..][..k - 1];
          assert es[k] == es[1..][k - 1];
        }
      }
    }
  }

  /** processCompound only ever receives compounds and processList only lists, and the first callback is for the walked compound itself. */
  lemma {:induction false} EventsWellFormed(name: string, t: Tag)
    requires t.Compound?
    ensures Events(name, t)[0] == CompoundSeen(name, t)
    ensures forall k :: 0 <= k < |Events(name, t)| ==> WellFormed(Events(name, t)[k])
    decreases t, 1
  {
    ElementEventsWellFormed(t, 0);
  }

  predicate WellFormed(e: Event)
  {
    (e.CompoundSeen? ==> e.tag.Compound?) && (e.ListSeen? ==> e.tag.List?)
  }

  lemma {:induction false} ElementEventsWellFormed(parent: Tag, i: nat)
    requires parent.Compound? && i <= |parent.elements|
    ensures forall k :: 0 <= k < |ElementEvents(parent, i)| ==> WellFormed(ElementEvents(parent, i)[k])
    decreases parent, 0, |parent.elements| - i
  {
    if i < |parent.elements| {
      var e := parent.elements[i];
      if e.Compound? {
        EventsWellFormed(e.name, e);
      }
      ElementEventsWellFormed(parent, i + 1);
    }
  }

  /** Event k is for a direct element of a compound reported before it. */
  predicate HasParent(es: seq<Event>, k: nat)
    requires k < |es|
  {
    exists i :: 0 <= i < k && es[i].CompoundSeen? && es[i].tag.Compound? && es[k].tag in es[i].tag.elements
  }

  lemma HasParentExtend(a: seq<Event>, c: seq<Event>, k: nat)
    requires k < |a| && HasParent(a, k)
    ensures HasParent(a + c, k)
  {
    var i :| 0 <= i < k && a[i].CompoundSeen? && a[i].tag.Compound? && a[k].tag in a[i].tag.elements;
    assert (a + c)[i] == a[i] && (a + c)[k] == a[k];
  }

  lemma HasParentShift(a: seq<Event>, b: seq<Event>, k: nat)
    requires k < |b| && HasParent(b, k)
    ensures HasParent(a + b, |a| + k)
  {
    var i :| 0 <= i < k && b[i].CompoundSeen? && b[i].tag.Compound? && b[k].tag in b[i].tag.elements;
    assert (a + b)[|a| + i] == b[i] && (a + b)[|a| + k] == b[k];
  }

  /**
   * Every callback after the first is for a direct element of a compound
   * reported earlier: a compound is reported before its children, and a tag is
   * reported only as an element of a reported compound, so nothing inside a
   * list or a leaf is ever reached.
   */
  lemma {:induction false} EventsParented(name: string, t: Tag)
    requires t.Compound?
    ensures forall k :: 0 < k < |Events(name, t)| ==> HasParent(Events(name, t), k)
    decreases t, 1
  {
    var es := Events(name, t);
    var head := [CompoundSeen(name, t)];
    var ee := ElementEvents(t, 0);
    assert es == head + ee;
    ElementEventsParented(t, 0);
    forall k | 0 < k < |es|
      ensures HasParent(es, k)
    {
      assert es[k] == ee[k - 1];
      if ee[k - 1].tag in t.elements {
        assert es[0] == CompoundSeen(name, t);
      } else {
        HasParentShift(head, ee, k - 1);
      }
    }
  }

  lemma {:induction false} ElementEventsParented(parent: Tag, i: nat)
    requires parent.Compound? && i <= |parent.elements|
    ensures forall k :: 0 <= k < |ElementEvents(parent, i)| ==>
              ElementEvents(parent, i)[k].tag in parent.elements || HasParent(ElementEvents(parent, i), k)
    decreases parent, 0, |parent.elements| - i
  {
    if i < |parent.elements| {
      var e := parent.elements[i];
      var block := if e.Compound? then Events(e.name, e) else if e.List? then [ListSeen(e.name, e)] else [];
      var rest := ElementEvents(parent, i + 1);
      var ee := ElementEvents(parent, i);
      assert ee == block + rest;
      if e.Compound? {
        EventsParented(e.name, e);
      }
      ElementEventsParented(parent, i + 1);
      forall k | 0 <= k < |ee|
        ensures ee[k].tag in parent.elements || HasParent(ee, k)
      {
        if k < |block| {
          assert ee[k] == block[k];
          if k == 0 {
            assert block[0].tag == e;
          } else {
            HasParentExtend(block, rest, k);
          }
        } else {
          assert ee[k] == rest[k - |block|];
          if rest[k - |block|].tag !in parent.elements {
            HasParentShift(block, rest, k - |block|);
          }
        }
      }
    }
  }

  /** Compounds inside a list get no callback: the list is reported once and not entered. */
  lemma ListIsNotEntered(inner: Tag)
    requires inner.Compound?
    ensures var t := Compound("r", [List("l", [inner]), Leaf("x")]);
            Events("root", t) == [CompoundSeen("root", t), ListSeen("l", List("l", [inner]))]
  {
    var t := Compound("r", [List("l", [inner]), Leaf("x")]);
    assert ElementEvents(t, 2) == [];
    assert ElementEvents(t, 1) == [];
  }

  // ---------------------------------------------------------------------
  // parse

  /** What the decoder produced: the root tag, or the message of the exception it threw. */
  datatype Source = Decoded(root: Tag) | Malformed(error: string)

  /** The processor's final state, the callbacks made, and the errors passed to onError. */
  datatype ParseResult<S> = ParseResult(state: S, callbacks: seq<Event>, errors: seq<string>)

  /** The message of the IOException a closed stream throws on a read. */
  const StreamClosed: string := "Stream closed"

  /** parseInternal: only a compound root is walked, under the name "root". */
  function ParseInternal<S>(p: Processor<S>, s: S, root: Tag): (w: Walk<S>)
    ensures !root.Compound? ==> w == Walk(Completed, s, [])
    ensures root.Compound? ==> w == Run(p, s, Events("root", root))
  {
    WalkMatchesPreOrderIfCompound(p, s, root);
    if root.Compound? then WalkCompound(p, s, "root", root) else Walk(Completed, s, [])
  }

  lemma WalkMatchesPreOrderIfCompound<S>(p: Processor<S>, s: S, root: Tag)
    ensures root.Compound? ==> WalkCompound(p, s, "root", root) == Run(p, s, Events("root", root))
  {
    if root.Compound? {
      WalkMatchesPreOrder(p, s, "root", root);
    }
  }

  class StreamingNBTParser {
    const source: Source
    /** Whether the underlying stream has been closed. */
    var closed: bool

    constructor(source: Source)
      ensures this.source == source && !closed
    {
      this.source := source;
      closed := false;
    }

    /**
     * parse: decodes and walks; a decoder or callback exception goes to onError
     * exactly once, an early stop does not; the stream is closed on every path.
     * A second parse reads from the closed stream, which throws.
     */
    method Parse<S>(processor: Processor<S>, s: S) returns (r: ParseResult<S>)
      modifies this
      ensures closed
      ensures var src := if old(closed) then Malformed(StreamClosed) else source;
              && (src.Malformed? ==> r == ParseResult(processor.onError(s, src.error), [], [src.error]))
              && (src.Decoded? && !src.root.Compound? ==> r == ParseResult(s, [], []))
              && (src.Decoded? && src.root.Compound? ==>
                    var w := Run(processor, s, Events("root", src.root));
                    && r.callbacks == w.trace
                    && (w.outcome.Faulted? ==> r.state == processor.onError(w.state, w.outcome.error)
                                               && r.errors == [w.outcome.error])
                    && (!w.outcome.Faulted? ==> r.state == w.state && r.errors == []))
    {
      var src := if closed then Malformed(StreamClosed) else source;
      match src {
        case Malformed(e) =>
          r := ParseResult(processor.onError(s, e), [], [e]);
        case Decoded(root) =>
          var w := ParseInternal(processor, s, root);
          if w.outcome.Faulted? {
            r := ParseResult(processor.onError(w.state, w.outcome.error), w.trace, [w.outcome.error]);
          } else {
            r := ParseResult(w.state, w.trace, []);
          }
      }
      closed := true;
    }

    /**
     * parseChunkSections: every compound named "sections" or starting with
     * "section_" is handed, in walk order, to the handler, whose received
     * compounds are the state; the walk never stops early. The handler is a
     * non-throwing accumulator.
     */
    method ParseChunkSections(received: seq<Tag>) returns (r: ParseResult<seq<Tag>>)
      modifies this
      ensures closed
      ensures var src := if old(closed) then Malformed(StreamClosed) else source;
              && (src.Malformed? ==> r == ParseResult(received, [], [src.error]))
              && (src.Decoded? && !src.root.Compound? ==> r == ParseResult(received, [], []))
              && (src.Decoded? && src.root.Compound? ==>
                    var es := Events("root", src.root);
                    r == ParseResult(received + SectionsOf(es), es, []))
    {
      if !closed && source.Decoded? && source.root.Compound? {
        SectionsForwarded(received, Events("root", source.root));
      }
      r := Parse(SectionProcessor(), received);
    }
  }

  // ---------------------------------------------------------------------
  // ChunkSectionProcessor

  predicate IsSectionName(name: string)
  {
    name == "sections" || "section_" <= name
  }

  /** The handler receives the section compounds; lists use the default (continue) and errors the default (log only). */
  function SectionProcessor(): Processor<seq<Tag>>
  {
    Processor(
      (received: seq<Tag>, name: string, c: Tag) => (Continue, if IsSectionName(name) then received + [c] else received),
      (received: seq<Tag>, name: string, l: Tag) => (Continue, received),
      (received: seq<Tag>, error: string) => received)
  }

  /** The section compounds among the events, in order. */
  function SectionsOf(es: seq<Event>): seq<Tag>
  {
    if es == [] then []
    else (if es[0].CompoundSeen? && IsSectionName(es[0].name) then [es[0].tag] else []) + SectionsOf(es[1..])
  }

  /** The section processor never stops: it sees every event and receives exactly the section compounds. */
  lemma {:induction false} SectionsForwarded(received: seq<Tag>, es: seq<Event>)
    ensures Run(SectionProcessor(), received, es) == Walk(Completed, received + SectionsOf(es), es)
    decreases |es|
  {
    if es != [] {
      var head := if es[0].CompoundSeen? && IsSectionName(es[0].name) then [es[0].tag] else [];
      var first := Fire(SectionProcessor(), received, es[0]);
      assert first == Walk(Completed, received + head, [es[0]]) by {
        var sp := SectionProcessor();
        if es[0].CompoundSeen? {
          if !IsSectionName(es[0].name) {
            assert received + head == received;
          }
          assert sp.processCompound(received, es[0].name, es[0].tag) == (Continue, received + head);
        } else {
          assert sp.processList(received, es[0].name, es[0].tag) == (Continue, received);
          assert received + head == received;
        }
      }
      SectionsForwarded(received + head, es[1..]);
      assert SectionsOf(es) == head + SectionsOf(es[1..]);
      assert received + head + SectionsOf(es[1..]) == received + SectionsOf(es);
      assert [es[0]] + es[1..] == es;
    } else {
      assert received + SectionsOf(es) == received;
    }
  }

  // ---------------------------------------------------------------------
  // extractValue

  /** The anonymous processor's `currentDepth` and the `result[0]` cell it fills. */
  datatype ExtractState = ExtractState(depth: nat, result: Option<Tag>)

  /**
   * A compound whose name is the next path part advances the depth; when the
   * last part is matched the compound becomes the result and the walk stops.
   */
  function ExtractProcessor(parts: seq<string>): Processor<ExtractState>
  {
    Processor(
      (st: ExtractState, name: string, c: Tag) =>
        if st.depth < |parts| && parts[st.depth] == name then
          if st.depth + 1 == |parts| then (Stop, ExtractState(st.depth + 1, Some(c)))
          else (Continue, ExtractState(st.depth + 1, st.result))
        else (Continue, st),
      (st: ExtractState, name: string, l: Tag) => (Continue, st),
      (st: ExtractState, error: string) => st)
  }

  /** One step of the greedy scan: a compound named as the next path part advances it. */
  function Step(parts: seq<string>, d: nat, e: Event): nat
  {
    if e.CompoundSeen? && d < |parts| && parts[d] == e.name then d + 1 else d
  }

  /** Reference: how many path parts a greedy left-to-right scan of the compound names matches, from `d`. */
  function Depth(parts: seq<string>, d: nat, es: seq<Event>): nat
    decreases |es|
  {
    if es == [] then d else Depth(parts, Step(parts, d, es[0]), es[1..])
  }

  /** The extract processor's callback for one event, before the path is complete. */
  lemma ExtractStep(parts: seq<string>, d: nat, e: Event)
    requires d < |parts|
    ensures var f := Fire(ExtractProcessor(parts), ExtractState(d, None), e);
            var d' := Step(parts, d, e);
            && d' <= |parts|
            && (d' == |parts| ==> e == CompoundSeen(parts[|parts| - 1], e.tag)
                                  && f == Walk(Stopped, ExtractState(|parts|, Some(e.tag)), [e]))
            && (d' < |parts| ==> f == Walk(Completed, ExtractState(d', None), [e]))
  {
  }

  lemma DepthCons(parts: seq<string>, d: nat, es: seq<Event>, j: nat)
    requires 1 <= j <= |es|
    ensures Depth(parts, d, es[..j]) == Depth(parts, Step(parts, d, es[0]), es[1..][..j - 1])
  {
    assert es[..j][0] == es[0];
    assert es[..j][1..] == es[1..][..j - 1];
  }

  /**
   * Running the extract processor is the greedy scan: when the scan does not
   * reach the end of the path the walk completes with no result; otherwise it
   * stops right after the compound j that matched the last part, which is the
   * result.
   */
  lemma {:induction false} ExtractIsGreedyScan(parts: seq<string>, d: nat, es: seq<Event>)
    requires d < |parts|
    ensures Depth(parts, d, es) <= |parts|
    ensures var w := Run(ExtractProcessor(parts), ExtractState(d, None), es);
            && (Depth(parts, d, es) < |parts| ==> w == Walk(Completed, ExtractState(Depth(parts, d, es), None), es))
            && (Depth(parts, d, es) == |parts| ==>
                  exists j :: 0 <= j < |es| && Depth(parts, d, es[..j]) == |parts| - 1
                              && es[j] == CompoundSeen(parts[|parts| - 1], es[j].tag)
                              && w == Walk(Stopped, ExtractState(|parts|, Some(es[j].tag)), es[..j + 1]))
    decreases |es|
  {
    if es != [] {
      var p := ExtractProcessor(parts);
      var d' := Step(parts, d, es[0]);
      ExtractStep(parts, d, es[0]);
      if d' == |parts| {
        DepthFull(parts, es[1..]);
        assert es[..0] == [] && es[..1] == [es[0]];
      } else {
        ExtractIsGreedyScan(parts, d', es[1..]);
        var rest := Run(p, ExtractState(d', None), es[1..]);
        if Depth(parts, d, es) < |parts| {
          assert [es[0]] + es[1..] == es;
        } else {
          var j' :| 0 <= j' < |es| - 1 && Depth(parts, d', es[1..][..j']) == |parts| - 1
                    && es[1..][j'] == CompoundSeen(parts[|parts| - 1], es[1..][j'].tag)
                    && rest == Walk(Stopped, ExtractState(|parts|, Some(es[1..][j'].tag)), es[1..][..j' + 1]);
          DepthCons(parts, d, es, j' + 1);
          assert es[..j' + 2] == [es[0]] + es[1..][..j' + 1];
          assert es[j' + 1] == es[1..][j'];
        }
      }
    }
  }

  /** Once the whole path is matched the scan stays there. */
  lemma {:induction false} DepthFull(parts: seq<string>, es: seq<Event>)
    ensures Depth(parts, |parts|, es) == |parts|
    decreases |es|
  {
    if es != [] {
      DepthFull(parts, es[1..]);
    }
  }

  /** An empty path never matches: the walk runs to the end with no result. */
  lemma {:induction false} ExtractEmptyPath(es: seq<Event>, st: ExtractState)
    requires st.depth == 0
    ensures Run(ExtractProcessor([]), st, es) == Walk(Completed, st, es)
    decreases |es|
  {
    if es != [] {
      ExtractEmptyPath(es[1..], st);
    }
  }

  /**
   * extractValue: the first compound, in walk order, at which every path part
   * has been matched greedily among the compound names (the root counting as
   * "root"); none when the decoder failed, the root is not a compound, or the
   * path is never matched in full.
   */
  method ExtractValue(source: Source, parts: seq<string>) returns (r: Option<Tag>)
    ensures !(source.Decoded? && source.root.Compound?) ==> r == None
    ensures source.Decoded? && source.root.Compound? ==>
              var es := Events("root", source.root);
              && (r == None <==> |parts| == 0 || Depth(parts, 0, es) < |parts|)
              && (r.Some? ==> r.value.Compound?
                              && exists j :: 0 <= j < |es| && es[j] == CompoundSeen(parts[|parts| - 1], r.value)
                                             && Depth(parts, 0, es[..j]) == |parts| - 1)
  {
    var parser := new StreamingNBTParser(source);
    var res := parser.Parse(ExtractProcessor(parts), ExtractState(0, None));
    r := res.state.result;
    if source.Decoded? && source.root.Compound? {
      var es := Events("root", source.root);
      EventsWellFormed("root", source.root);
      if |parts| == 0 {
        ExtractEmptyPath(es, ExtractState(0, None));
      } else {
        ExtractIsGreedyScan(parts, 0, es);
      }
    }
  }

  // ---------------------------------------------------------------------
  // Examples

  /** The root is reported as "root" whatever its own name, so a path naming the root by its name finds nothing. */
  lemma RootIsCalledRoot()
    ensures var c := Compound("C", []);
            var b := Compound("B", [c]);
            var a := Compound("A", [b]);
            var es := Events("root", a);
            && es == [CompoundSeen("root", a), CompoundSeen("B", b), CompoundSeen("C", c)]
            && Depth(["A", "B"], 0, es) == 0
            && Depth(["root", "B"], 0, es) == 2
  {
    var c := Compound("C", []);
    var b := Compound("B", [c]);
    var a := Compound("A", [b]);
    assert ElementEvents(c, 0) == [];
    assert Events("C", c) == [CompoundSeen("C", c)];
    assert ElementEvents(b, 1) == [];
    assert ElementEvents(b, 0) == [CompoundSeen("C", c)];
    assert Events("B", b) == [CompoundSeen("B", b), CompoundSeen("C", c)];
    assert ElementEvents(a, 1) == [];
    assert ElementEvents(a, 0) == [CompoundSeen("B", b), CompoundSeen("C", c)];
    var es := Events("root", a);
    assert es[1..] == [CompoundSeen("B", b), CompoundSeen("C", c)];
    assert es[1..][1..] == [CompoundSeen("C", c)];
    assert es[1..][1..][1..] == [];
    var ab, rb := ["A", "B"], ["root", "B"];
    assert "A" != "root" && "A" != "B" && "A" != "C";
    assert Depth(ab, 0, es[1..][1..]) == 0;
    assert Depth(ab, 0, es) == 0;
    assert "B" != "C";
    assert Depth(rb, 2, es[1..][1..]) == 2;
    assert Depth(rb, 1, es[1..]) == 2;
  }
}
