/** Two flows on which `handle_delete_node` as written (controllers/diagram_controller.py) goes
    wrong. In both, the start node "a" leads to a multiple-choice node "b", and "b" is deleted.
    - Built in the editor: the deletion leaves the edge into "b". Running the flow afterwards
      still shows "b"'s dialog through the stale edge, while saving and loading the same flow
      drops the edge; the corrected deletion clears it.
    - Loaded from a file: the graph never saw the loaded ids, so the deletion fails and "b"
      stays listed; the corrected deletion removes it. */
module DeleteFinding {
  import opened Wrappers
  import opened Dicts
  import opened VariableStore
  import opened Configs
  import opened Hosts
  import opened FlowNodes
  import opened Engine
  import opened Graphs
  import opened Saving
  import opened Controller

  /** The two nodes: "a" (start, leading to "b") and "b" (multiple choice). */
  function Before(): Arena {
    [FlowNode("a", 100, 0, "inicio", "Inicio", "Inicio", EmptyConfig, None, Some(1), None, None),
     FlowNode("b", 100, 100, "multiples", "Multiples 2", "", EmptyConfig, None, None, None, None)]
  }

  /** Both nodes listed. */
  function Listed(): Dict<string, Ref> {
    Dict(["a", "b"], map["a" := 0, "b" := 1])
  }

  /** Only "a" listed, as after deleting "b". */
  function After(): Dict<string, Ref> {
    Dict(["a"], map["a" := 0])
  }

  /** "a" with its exit cleared. */
  function StartOnly(): FlowNode {
    FlowNode("a", 100, 0, "inicio", "Inicio", "Inicio", EmptyConfig, None, None, None, None)
  }

  /** Both nodes keep their edges within the arena, and only "a" has an exit. */
  lemma BeforeIsClosed()
    ensures Closed(Before()) && NoIncoming(Before()) && ExitsFitType(Before())
    ensures Exits(Before()[0]) == {1} && Exits(Before()[1]) == {}
  {
    assert EdgesWithin(Before()[0], 2) by { assert Edges(Before()[0]) == {1}; }
    assert EdgesWithin(Before()[1], 2) by { assert Edges(Before()[1]) == {}; }
  }

  /** Both nodes are listed under their ids. */
  lemma ListedIsKeyed()
    ensures Listed().Valid() && Indexes(Before(), Listed()) && Keyed(Before(), Listed())
    ensures Listed().entries["b"] == 1
  {
  }

  /** Before the deletion the graph is sound and nothing dangles. */
  lemma BeforeIsSound()
    ensures Sound(Before(), Listed()) && NoDangling(Before(), Listed())
  {
    BeforeIsClosed();
    ListedIsKeyed();
    assert 1 in Listed().entries.Values;
  }

  /** Unlisting "b" leaves "a" alone. */
  lemma RemoveB()
    ensures Listed().Valid() && Listed().Remove("b") == After()
  {
    ListedIsKeyed();
    KeysWithoutB();
    assert Listed().entries - {"b"} == map["a" := 0];
  }

  /** The key list without "b". */
  lemma KeysWithoutB()
    ensures Without(["a", "b"], "b") == ["a"]
  {
    assert ["a", "b"][..1] == ["a"];
    assert ["a"][..0] == [];
  }

  /** Deleting "b" as written leaves every node as it was and only unlists "b". */
  lemma DeleteLeavesEdge()
    ensures Closed(Before()) && 1 < |Before()| && Listed().Valid() && "b" in Listed().entries
    ensures Detached(Before(), 1) == Before() && Listed().Remove("b") == After()
  {
    BeforeIsClosed();
    RemoveB();
    DetachedChangesNothing(Before(), 1);
  }

  /** After that deletion the exit of "a" leads to an unlisted node. */
  lemma AfterDangles()
    ensures Sound(Before(), After()) && !NoDangling(Before(), After())
  {
    BeforeIsSound();
    var m := After().entries;
    assert m.Keys == {"a"};
    forall k | k in m ensures m[k] == 0 && k in Listed().entries && Listed().entries[k] == m[k] {
    }
    assert 1 !in m.Values;
    assert "a" in m && m["a"] < |Before()| && 1 in Exits(Before()[m["a"]]);
  }

  /** The start node alone, without an exit, runs and completes with nothing changed. */
  lemma LoneStartCompletes(h: Arena, store: Store, o: Oracle, calls: nat)
    requires WellFormed(store) && Closed(h) && |h| >= 1 && h[0] == StartOnly()
    ensures Indexes(h, After())
    ensures Execute(h, After(), store, o, calls, 3) == Completed(RunState(store, map[], calls))
  {
    assert After().Values() == [0];
    assert FirstStart(h, [0]) == Some(0);
    var st := RunState(store, map[], calls);
    assert Step(h[0], st, o) == Moved(st, None);
  }

  /** The run after the deletion still reaches "b" through the stale edge and asks its
      question: one host call, and the answer is written. */
  lemma DeletedNodeStillRuns(store: Store, o: Oracle, calls: nat)
    requires WellFormed(store)
    ensures Closed(Before()) && Indexes(Before(), After())
    ensures var out := Execute(Before(), After(), store, o, calls, 3);
      out.Completed? && out.st.calls == calls + 1 && "respuesta" in out.st.memory
  {
    AfterDangles();
    var h := Before();
    assert After().Values() == [0];
    assert FirstStart(h, [0]) == Some(0);
    var st := RunState(store, map[], calls);
    StartMovesToB(st, o);
    var st' := Step(h[1], st, o).st;
    MultiplesAnswers(st, o);
    assert Run(h, Some(1), st, o, 2) == Run(h, None, st', o, 1);
  }

  lemma StartMovesToB(st: RunState, o: Oracle)
    requires WellFormed(st.store)
    ensures Step(Before()[0], st, o) == Moved(st, Some(1))
  {
  }

  lemma MultiplesAnswers(st: RunState, o: Oracle)
    requires WellFormed(st.store)
    ensures Step(Before()[1], st, o).Moved? && Step(Before()[1], st, o).next == None
    ensures Step(Before()[1], st, o).st.calls == st.calls + 1
    ensures "respuesta" in Step(Before()[1], st, o).st.memory
  {
  }

  /** Saving the flow after the deletion and loading it again gives "a" alone, without exit. */
  lemma ReloadedFlow()
    ensures LoadedHeap(Records(Before(), After())) == [StartOnly()]
    ensures CreatedNodes(Records(Before(), After())) == After()
  {
    AfterDangles();
    var recs := Records(Before(), After());
    assert recs == [RecordOf(Before(), Before()[0])];
    var rec := recs[0];
    assert rec.connectedTo == Some("b");
    assert recs[..0] == [];
    var d := CreatedNodes(recs);
    assert d == Dict(["a"], map["a" := 0]);
    assert Target(d, Some("b")) == None;
    assert CreatedHeap(recs) == [Fresh(rec)];
    assert LinkNode(Fresh(rec), d, rec) == StartOnly();
  }

  /** So the reloaded flow stops after the start node with nothing asked. */
  lemma ReloadDropsDeletedNode(store: Store, o: Oracle, calls: nat)
    requires WellFormed(store)
    ensures var recs := Records(Before(), After());
      Closed(LoadedHeap(recs)) && Indexes(LoadedHeap(recs), CreatedNodes(recs)) &&
      Execute(LoadedHeap(recs), CreatedNodes(recs), store, o, calls, 3) == Completed(RunState(store, map[], calls))
  {
    ReloadedFlow();
    assert Exits(StartOnly()) == {};
    LoneStartCompletes([StartOnly()], store, o, calls);
  }

  /** With the corrected deletion the exit of "a" is cleared, nothing dangles, and the run
      agrees with the run of the saved and reloaded flow. */
  lemma FixedDeleteMatchesReload(store: Store, o: Oracle, calls: nat)
    requires WellFormed(store)
    ensures NoDangling(UnlinkedAll(Before(), 1), After())
    ensures Closed(UnlinkedAll(Before(), 1)) && Indexes(UnlinkedAll(Before(), 1), After())
    ensures Execute(UnlinkedAll(Before(), 1), After(), store, o, calls, 3) == Completed(RunState(store, map[], calls))
  {
    FixedDeleteClearsEdge();
    LoneStartCompletes([StartOnly(), Before()[1]], store, o, calls);
  }

  /** The corrected deletion clears the exit of "a" and leaves "b" as it was; neither has an
      exit left, so both stay within the arena. */
  lemma FixedDeleteClearsEdge()
    ensures UnlinkedAll(Before(), 1) == [StartOnly(), Before()[1]]
    ensures Exits(StartOnly()) == {} && Exits(Before()[1]) == {}
    ensures Closed([StartOnly(), Before()[1]])
  {
    var h := UnlinkedAll(Before(), 1);
    assert h[0] == StartOnly() && h[1] == Before()[1];
    assert Edges(StartOnly()) == {} && Edges(Before()[1]) == {};
  }

  /** The records of a saved flow: "a" (start, leading to "b") and "b" (multiple choice). */
  function Saved(): seq<NodeRecord> {
    [NodeRecord("a", 100, 0, "inicio", "Inicio", None, None, Some("b"), None, None),
     NodeRecord("b", 100, 100, "multiples", "Multiples 2", None, None, None, None, None)]
  }

  /** Loading the saved records lists "b" as a multiple-choice node. */
  lemma LoadedB()
    ensures Indexes(LoadedHeap(Saved()), CreatedNodes(Saved()))
    ensures "b" in CreatedNodes(Saved()).entries
    ensures Deletable(LoadedHeap(Saved()), CreatedNodes(Saved()), Some("b"))
  {
    var recs := Saved();
    LoadDistinct(recs);
    LoadedIsSound(recs);
    assert recs[1].id == "b" && CreatedNodes(recs).entries["b"] == 1;
    assert LoadedHeap(recs)[1] == LinkNode(Fresh(recs[1]), CreatedNodes(recs), recs[1]);
  }

  /** A new controller loads the saved flow and "b" is deleted: as written the deletion fails
      and "b" stays listed; the corrected deletion then removes it. */
  method DeleteAfterLoad() returns (keptAsWritten: bool, keptWhenFixed: bool)
    ensures keptAsWritten && !keptWhenFixed
  {
    var c := new DiagramController();
    c.LoadFlow(FlowDoc(Some(Saved()), None));
    LoadedB();
    var deleted := c.DeleteNode(Some("b"));
    keptAsWritten := "b" in c.nodes.entries;
    deleted := c.DeleteNodeFixed(Some("b"));
    keptWhenFixed := "b" in c.nodes.entries;
  }
}
