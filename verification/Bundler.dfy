/** The module graph of a bundle, and what the bundle of a list of its modules is. */
module Programs {
  import opened Integers
  import opened SourceMaps
  import opened SourceMapBuilders
  import opened BundleOrder

  /** The finished module graph: dependencies and sources. */
  datatype Program = Program(graph: Graph, source: map<Node, Source>) {
    ghost predicate Valid() {
      graph.Closed() && graph.deps.Keys == source.Keys && forall m {:trigger Usable(m)} :: m in source ==> Usable(m)
    }

    /** The map of a module can be copied. */
    ghost predicate Usable(m: Node) {
      && m in source && source[m].Valid()
      && Copyable(source[m].sourceMap.mappings, |source[m].sourceMap.sources|, source[m].sourceLines)
    }

    /** The contents of the listed modules, one after the other. */
    ghost function Text(order: seq<Node>): seq<Byte>
      requires forall m :: m in order ==> m in source
    {
      if order == [] then [] else Text(order[..|order| - 1]) + source[order[|order| - 1]].content
    }

    /** Their mappings, each below the text before it. */
    ghost function Map(order: seq<Node>): seq<Entry<string>>
      requires forall m :: m in order ==> m in source
    {
      if order == [] then []
      else
        var init, last := order[..|order| - 1], order[|order| - 1];
        Map(init) + Lower(MeaningOf(source[last]), CountByte(Text(init), NEWLINE))
    }

    ghost function Names(order: seq<Node>): nat
      requires forall m :: m in order ==> m in source
    {
      if order == [] then 0 else Names(order[..|order| - 1]) + |source[order[|order| - 1]].sourceMap.sources|
    }

    /** No map has a byte outside the alphabet. */
    ghost predicate AllReadable(order: seq<Node>)
      requires forall m :: m in order ==> m in source
    {
      forall m :: m in order ==> Readable(source[m].sourceMap.mappings) == |source[m].sourceMap.mappings|
    }
  }

  lemma Snoc(program: Program, order: seq<Node>, m: Node)
    requires (forall x :: x in order ==> x in program.source) && m in program.source
    ensures forall x :: x in order + [m] ==> x in program.source
    ensures program.Text(order + [m]) == program.Text(order) + program.source[m].content
    ensures program.Map(order + [m])
         == program.Map(order) + Lower(MeaningOf(program.source[m]), CountByte(program.Text(order), NEWLINE))
    ensures program.Names(order + [m]) == program.Names(order) + |program.source[m].sourceMap.sources|
    ensures program.AllReadable(order + [m]) <==>
              program.AllReadable(order)
              && Readable(program.source[m].sourceMap.mappings) == |program.source[m].sourceMap.mappings|
  {
    assert (order + [m])[..|order|] == order;
    assert forall x :: x in order + [m] <==> x in order || x == m;
  }

  /** The builder holds the text and the mappings of the modules emitted so far. */
  ghost predicate Holds(program: Program, builder: SourceMapBuilder, order: seq<Node>)
    reads builder, builder.outputBuffer, builder.outputBuffer.buffer, builder.mappings, builder.mappings.buffer
  {
    && (forall m :: m in order ==> m in program.source)
    && builder.Valid()
    && builder.outputBuffer.Contents() == program.Text(order)
    && builder.Meaning() == program.Map(order)
    && |builder.sources| <= program.Names(order)
    && program.AllReadable(order)
  }
}

/** Bundling a module with its dependencies: the walk of `BundleOrder`, emitting into a `SourceMapBuilder`. */
module Bundlers {
  import opened Integers
  import opened Sequences
  import opened Vlq
  import opened SourceMaps
  import opened SourceMapBuilders
  import opened BundleOrder
  import opened Programs

  class Bundler {
    const program: Program
    const builder: SourceMapBuilder
    var visited: set<Node>

    constructor (program: Program)
      ensures this.program == program && visited == {} && Holds(program, builder, []) && fresh(builder.Repr())
    {
      this.program := program;
      var b := new SourceMapBuilder();
      builder := b;
      visited := {};
    }

    /** What the walk needs of the order it is going to produce: few enough names. */
    ghost predicate Fits(order: seq<Node>) {
      (forall x :: x in order ==> x in program.source) && program.Names(order) <= TWO30
    }

    /** `builder.addSource` for one module. */
    method Emit(m: Node, ghost order: seq<Node>) returns (ok: bool, ghost order': seq<Node>)
      requires program.Valid() && m in program.source && Holds(program, builder, order)
      requires Fits(order + [m])
      modifies builder, builder.outputBuffer, builder.outputBuffer.buffer, builder.mappings, builder.mappings.buffer
      ensures builder.outputBuffer.buffer == old(builder.outputBuffer.buffer) || fresh(builder.outputBuffer.buffer)
      ensures builder.mappings.buffer == old(builder.mappings.buffer) || fresh(builder.mappings.buffer)
      ensures order' == order + [m] && Fits(order') && (ok <==> program.AllReadable(order'))
      ensures ok ==> Holds(program, builder, order')
    {
      assert program.Usable(m);
      Snoc(program, order, m);
      ok := builder.AddSource(program.source[m]);
      order' := order + [m];
    }

    lemma {:induction false} FitsPrefix(a: seq<Node>, b: seq<Node>)
      requires a <= b && Fits(b)
      ensures Fits(a) && (program.AllReadable(b) ==> program.AllReadable(a))
      decreases |b|
    {
      forall x | x in a ensures x in b {
        var i :| 0 <= i < |a| && a[i] == x;
        assert b[i] == x;
      }
      if a != b {
        var init := b[..|b| - 1];
        assert forall x :: x in init ==> x in b;
        FitsPrefix(a, init);
      }
    }

    lemma FitsVisit(s: Progress, m: Node, whole: seq<Node>)
      requires program.Valid() && m in program.source && Visit(program.graph, s, m).order <= whole && Fits(whole)
      ensures Fits(s.order) && Fits(Visit(program.graph, s, m).order)
      ensures program.AllReadable(whole) ==> program.AllReadable(Visit(program.graph, s, m).order)
    {
      VisitExtends(program.graph, s, m);
      FitsPrefix(Visit(program.graph, s, m).order, whole);
      FitsPrefix(s.order, whole);
    }

    lemma FitsNext(s: Progress, ds: seq<Node>, whole: seq<Node>)
      requires program.Valid() && ds != [] && (forall d :: d in ds ==> d in program.source)
      requires VisitAll(program.graph, s, ds).order == whole && Fits(whole)
      ensures Fits(Visit(program.graph, s, ds[0]).order)
      ensures program.AllReadable(whole) ==> program.AllReadable(Visit(program.graph, s, ds[0]).order)
    {
      VisitAllExtends(program.graph, Visit(program.graph, s, ds[0]), ds[1..]);
      FitsVisit(s, ds[0], whole);
    }

    method MarkVisited(m: Node, ghost order: seq<Node>)
      requires Holds(program, builder, order)
      modifies this`visited
      ensures visited == old(visited) + {m} && Holds(program, builder, order)
    {
      visited := visited + {m};
    }

    /** `visit`; it fails when it comes to a map that cannot be read. */
    method VisitModule(m: Node, ghost order: seq<Node>) returns (ok: bool, ghost order': seq<Node>)
      requires program.Valid() && m in program.source && Holds(program, builder, order)
      requires Fits(Visit(program.graph, Progress(visited, order), m).order)
      modifies this`visited, builder, builder.outputBuffer, builder.outputBuffer.buffer
      modifies builder.mappings, builder.mappings.buffer
      ensures builder.outputBuffer.buffer == old(builder.outputBuffer.buffer) || fresh(builder.outputBuffer.buffer)
      ensures builder.mappings.buffer == old(builder.mappings.buffer) || fresh(builder.mappings.buffer)
      ensures var t := Visit(program.graph, Progress(old(visited), order), m);
              && (ok <==> program.AllReadable(t.order))
              && (ok ==> Progress(visited, order') == t && Holds(program, builder, order'))
      decreases |program.graph.deps.Keys - visited|, 0
    {
      if m in visited {
        ok, order' := true, order;
      } else {
        OneFewerLeft(program.graph.deps.Keys, visited, visited + {m}, m);
        MarkVisited(m, order);
        ok, order' := VisitAndEmit(m, order, VisitAll(program.graph, Progress(visited, order), program.graph.deps[m]));
      }
    }

    /** The rest of `visit` for a module that has just been entered; `t` is where its dependencies lead. */
    method VisitAndEmit(m: Node, ghost order: seq<Node>, ghost t: Progress)
      returns (ok: bool, ghost order': seq<Node>)
      requires program.Valid() && m in program.source && Holds(program, builder, order)
      requires t == VisitAll(program.graph, Progress(visited, order), program.graph.deps[m]) && Fits(t.order + [m])
      modifies this`visited, builder, builder.outputBuffer, builder.outputBuffer.buffer,
               builder.mappings, builder.mappings.buffer
      ensures builder.outputBuffer.buffer == old(builder.outputBuffer.buffer) || fresh(builder.outputBuffer.buffer)
      ensures builder.mappings.buffer == old(builder.mappings.buffer) || fresh(builder.mappings.buffer)
      ensures ok <==> program.AllReadable(t.order + [m])
      ensures ok ==> visited == t.visited && order' == t.order + [m] && Holds(program, builder, order')
      decreases |program.graph.deps.Keys - visited|, 2
    {
      FitsPrefix(t.order, t.order + [m]);
      ok, order' := VisitDependencies(program.graph.deps[m], order);
      if ok {
        ok, order' := Emit(m, order');
      }
    }

    /** The loop of `visit` over the dependencies. */
    method VisitDependencies(dependencies: seq<Node>, ghost order: seq<Node>)
      returns (ok: bool, ghost order': seq<Node>)
      requires program.Valid() && (forall d :: d in dependencies ==> d in program.source)
      requires Holds(program, builder, order)
      requires Fits(VisitAll(program.graph, Progress(visited, order), dependencies).order)
      modifies this`visited, builder, builder.outputBuffer, builder.outputBuffer.buffer
      modifies builder.mappings, builder.mappings.buffer
      ensures builder.outputBuffer.buffer == old(builder.outputBuffer.buffer) || fresh(builder.outputBuffer.buffer)
      ensures builder.mappings.buffer == old(builder.mappings.buffer) || fresh(builder.mappings.buffer)
      ensures var t := VisitAll(program.graph, Progress(old(visited), order), dependencies);
              && (ok <==> program.AllReadable(t.order))
              && (ok ==> Progress(visited, order') == t && Holds(program, builder, order'))
      decreases |program.graph.deps.Keys - visited|, 1
    {
      ghost var g := program.graph;
      ghost var t := VisitAll(g, Progress(visited, order), dependencies);
      order' := order;
      ok := true;
      var i := 0;
      while ok && i < |dependencies|
        invariant i <= |dependencies| && (ok ==> old(visited) <= visited)
        invariant builder.outputBuffer.buffer == old(builder.outputBuffer.buffer) || fresh(builder.outputBuffer.buffer)
        invariant builder.mappings.buffer == old(builder.mappings.buffer) || fresh(builder.mappings.buffer)
        invariant ok ==> Holds(program, builder, order')
        invariant ok ==> VisitAll(g, Progress(visited, order'), dependencies[i..]) == t
        invariant !ok ==> !program.AllReadable(t.order)
      {
        FitsNext(Progress(visited, order'), dependencies[i..], t.order);
        assert dependencies[i..][1..] == dependencies[i + 1..];
        FewerLeft(g.deps.Keys, old(visited), visited);
        ok, order' := VisitModule(dependencies[i], order');
        i := i + 1;
      }
    }
  }

  /** The end of a bundle: its map is taken, and a last line is added. */
  method Finish(builder: SourceMapBuilder, ghost program: Program, ghost order: seq<Node>,
                trailer: SourceMap -> seq<Byte>)
    returns (content: seq<Byte>, sourceMap: SourceMap)
    requires Holds(program, builder, order)
    modifies builder.outputBuffer, builder.outputBuffer.buffer, builder.mappings, builder.mappings.buffer
    ensures content == program.Text(order) + trailer(sourceMap) + [NEWLINE]
    ensures Decode(sourceMap.mappings, |sourceMap.sources|).Some? && Distinct(sourceMap.sources)
    ensures Named(Decode(sourceMap.mappings, |sourceMap.sources|).value, sourceMap.sources) == program.Map(order)
    ensures CountByte(sourceMap.mappings, SEMICOLON) == CountByte(program.Text(order), NEWLINE)
  {
    builder.SemicolonsAreNewlines();
    sourceMap := builder.ToSourceMap();
    builder.AddLine(trailer(sourceMap));
    content := builder.ToContent();
  }

  /** `bundleWithDependencies`.  `trailer` stands for the comment with the encoded map at the end of the bundle.
      The bundle is the text of the modules in the order of the walk, and its map means their maps, each moved
      below the text before it. */
  method BundleWithDependencies(program: Program, root: Node, trailer: SourceMap -> seq<Byte>)
    returns (ok: bool, content: seq<Byte>, sourceMap: SourceMap)
    requires program.Valid() && root in program.source
    requires forall m :: m in Order(program.graph, root) ==> m in program.source
    requires program.Names(Order(program.graph, root)) <= TWO30
    ensures ok <==> program.AllReadable(Order(program.graph, root))
    ensures ok ==> content == program.Text(Order(program.graph, root)) + trailer(sourceMap) + [NEWLINE]
    ensures ok ==> Decode(sourceMap.mappings, |sourceMap.sources|).Some? && Distinct(sourceMap.sources)
                   && Named(Decode(sourceMap.mappings, |sourceMap.sources|).value, sourceMap.sources)
                      == program.Map(Order(program.graph, root))
                   && CountByte(sourceMap.mappings, SEMICOLON)
                      == CountByte(program.Text(Order(program.graph, root)), NEWLINE)
  {
    content, sourceMap := [], SourceMap([], []);
    var bundler := new Bundler(program);
    ghost var order;
    ok, order := bundler.VisitModule(root, []);
    if ok {
      content, sourceMap := Finish(bundler.builder, program, order, trailer);
    }
  }
}
