/**
  The HUD's immediate-mode context: vertices are emitted while clip rectangles are pushed and
  popped, and runs of vertices with one clip become the spans the renderer draws.
 */
module HudClipSpans {
  datatype Rect = Rect(x: real, y: real, w: real, h: real)

  /** A negative width means no scissor. */
  const NO_CLIP := Rect(0.0, 0.0, -1.0, 0.0)

  datatype Span = Span(start: nat, count: nat, clip: Rect)

  datatype Frame<V> = Frame(vertices: seq<V>, spans: seq<Span>, stack: seq<Rect>, start: nat, dirty: bool)

  function Top(stack: seq<Rect>): (clip: Rect) {
    if stack == [] then NO_CLIP else stack[|stack| - 1]
  }

  function NewFrame<V>(): (f: Frame<V>) {
    Frame([], [], [], 0, false)
  }

  function Flushed<V>(f: Frame<V>): (r: Frame<V>)
    requires f.start <= |f.vertices|
  {
    if !f.dirty || f.start == |f.vertices| then f
    else
      var span := Span(f.start, |f.vertices| - f.start, Top(f.stack));
      f.(spans := f.spans + [span], start := |f.vertices|, dirty := false)
  }

  datatype Op<V> = Emit(vertices: seq<V>) | PushClip(clip: Rect) | PopClip

  function Step<V>(f: Frame<V>, op: Op<V>): (r: Frame<V>)
    requires f.start <= |f.vertices|
    ensures r.start <= |r.vertices|
  {
    match op
    case Emit(vertices) => f.(vertices := f.vertices + vertices, dirty := true)
    case PushClip(clip) => var g := Flushed(f); g.(stack := g.stack + [clip])
    case PopClip => var g := Flushed(f); if g.stack == [] then g else g.(stack := g.stack[..|g.stack| - 1])
  }

  class HudContext<V> {
    var vertices: seq<V>
    var clipSpans: seq<Span>
    var clipStack: seq<Rect>
    var spanStartVertex: nat
    var spanDirty: bool

    ghost predicate Valid()
      reads this
    {
      spanStartVertex <= |vertices|
    }

    ghost function State(): (f: Frame<V>)
      reads this
    {
      Frame(vertices, clipSpans, clipStack, spanStartVertex, spanDirty)
    }

    constructor ()
      ensures Valid() && State() == NewFrame()
    {
      vertices, clipSpans, clipStack, spanStartVertex, spanDirty := [], [], [], 0, false;
    }

    method BeginFrame()
      modifies this
      ensures Valid() && State() == NewFrame()
    {
      vertices := [];
      clipSpans := [];
      clipStack := [];
      spanStartVertex := 0;
      spanDirty := false;
    }

    method EndFrame()
      requires Valid()
      modifies this
      ensures Valid() && State() == Flushed(old(State()))
    {
      if spanDirty {
        FlushClipSpan();
      }
    }

    method FlushClipSpan()
      requires Valid() && spanDirty
      modifies this
      ensures Valid() && State() == Flushed(old(State()))
    {
      var vertexCount := |vertices| - spanStartVertex;
      if vertexCount == 0 {
        return;
      }
      var clip;
      if clipStack == [] {
        clip := NO_CLIP;
      } else {
        clip := clipStack[|clipStack| - 1];
      }
      clipSpans := clipSpans + [Span(spanStartVertex, vertexCount, clip)];
      spanStartVertex := |vertices|;
      spanDirty := false;
    }

    /** Every primitive sets the flag and then appends its three or six vertices. */
    method EmitVertices(added: seq<V>)
      requires Valid()
      modifies this
      ensures Valid() && State() == Step(old(State()), Emit(added))
    {
      spanDirty := true;
      ghost var before := vertices;
      for i := 0 to |added|
        invariant vertices == before + added[..i]
        invariant clipSpans == old(clipSpans) && clipStack == old(clipStack) && spanDirty
        invariant spanStartVertex == old(spanStartVertex)
      {
        assert added[..i + 1] == added[..i] + [added[i]];
        vertices := vertices + [added[i]];
      }
      assert added[..|added|] == added;
    }

    method PushClipRect(clip: Rect)
      requires Valid()
      modifies this
      ensures Valid() && State() == Step(old(State()), PushClip(clip))
    {
      if spanDirty {
        FlushClipSpan();
      }
      clipStack := clipStack + [clip];
    }

    method PopClipRect()
      requires Valid()
      modifies this
      ensures Valid() && State() == Step(old(State()), PopClip)
    {
      if spanDirty {
        FlushClipSpan();
      }
      if clipStack != [] {
        clipStack := clipStack[..|clipStack| - 1];
      }
    }
  }

  // ---------------------------------------------------------------- frames

  function Run<V>(ops: seq<Op<V>>): (f: Frame<V>)
    ensures f.start <= |f.vertices|
  {
    if ops == [] then NewFrame() else Step(Run(ops[..|ops| - 1]), ops[|ops| - 1])
  }

  // ---------------------------------------------------------------- what is drawn

  /** The clips in force, innermost first. */
  datatype Scope = Screen | Within(clip: Rect, outer: Scope)

  function ClipOf(scope: Scope): (clip: Rect) {
    match scope
    case Screen => NO_CLIP
    case Within(clip, _) => clip
  }

  /** The scope after some operations: popping leaves the innermost clip, and the screen is never left. */
  function ScopeAfter<V>(ops: seq<Op<V>>): (scope: Scope) {
    if ops == [] then Screen
    else
      var scope := ScopeAfter(ops[..|ops| - 1]);
      match ops[|ops| - 1]
      case Emit(_) => scope
      case PushClip(clip) => Within(clip, scope)
      case PopClip => if scope.Screen? then Screen else scope.outer
  }

  /** A vertex and the clip it is to be drawn with. */
  datatype Drawn<V> = Drawn(vertex: V, clip: Rect)

  function Clipped<V>(vertices: seq<V>, clip: Rect): (d: seq<Drawn<V>>)
    ensures |d| == |vertices|
    ensures forall i :: 0 <= i < |d| ==> d[i] == Drawn(vertices[i], clip)
  {
    seq(|vertices|, i requires 0 <= i < |vertices| => Drawn(vertices[i], clip))
  }

  /** All emitted vertices in order, each with the clip that was innermost when it was emitted. */
  function Picture<V>(ops: seq<Op<V>>): (d: seq<Drawn<V>>) {
    if ops == [] then []
    else
      var before, op := ops[..|ops| - 1], ops[|ops| - 1];
      if op.Emit? then Picture(before) + Clipped(op.vertices, ClipOf(ScopeAfter(before))) else Picture(before)
  }

  /** The vertices of a picture. */
  ghost predicate Holds<V>(vertices: seq<V>, picture: seq<Drawn<V>>) {
    |vertices| == |picture| && forall i :: 0 <= i < |picture| ==> vertices[i] == picture[i].vertex
  }

  /** The spans are non-empty, follow one another from `start` on, cover exactly the given vertices, and each
      carries the clip of all vertices in it. */
  ghost predicate Partition<V>(spans: seq<Span>, picture: seq<Drawn<V>>, start: nat) {
    if spans == [] then picture == []
    else
      var s := spans[0];
      && s.start == start && 0 < s.count <= |picture|
      && (forall i :: 0 <= i < s.count ==> picture[i].clip == s.clip)
      && Partition(spans[1..], picture[s.count..], start + s.count)
  }

  lemma {:induction false} PartitionAppend<V>(spans: seq<Span>, picture: seq<Drawn<V>>, start: nat, clip: Rect,
                                              more: seq<Drawn<V>>)
    requires Partition(spans, picture, start) && more != []
    requires forall i :: 0 <= i < |more| ==> more[i].clip == clip
    ensures Partition(spans + [Span(start + |picture|, |more|, clip)], picture + more, start)
  {
    var last := Span(start + |picture|, |more|, clip);
    if spans == [] {
      assert picture + more == more && more[|more|..] == [];
      assert ([last] + [])[1..] == [];
    } else {
      var s := spans[0];
      PartitionAppend(spans[1..], picture[s.count..], start + s.count, clip, more);
      assert (spans + [last])[1..] == spans[1..] + [last];
      assert (picture + more)[s.count..] == picture[s.count..] + more;
    }
  }

  /** At every moment the vertices are those of the picture, the spans cover those up to `start`, and the rest
      carry the clip on top. */
  ghost predicate Consistent<V>(f: Frame<V>, picture: seq<Drawn<V>>)
    requires f.start <= |f.vertices|
  {
    && Holds(f.vertices, picture)
    && Partition(f.spans, picture[..f.start], 0)
    && (forall i :: f.start <= i < |picture| ==> picture[i].clip == Top(f.stack))
    && (f.start < |f.vertices| ==> f.dirty)
  }

  lemma FlushConsistent<V>(f: Frame<V>, picture: seq<Drawn<V>>)
    requires f.start <= |f.vertices| && Consistent(f, picture)
    ensures Consistent(Flushed(f), picture) && Flushed(f).start == |f.vertices|
  {
    if f.start < |f.vertices| {
      PartitionAppend(f.spans, picture[..f.start], 0, Top(f.stack), picture[f.start..]);
      assert picture[..f.start] + picture[f.start..] == picture == picture[..|picture|];
    }
  }

  lemma EmitConsistent<V>(f: Frame<V>, picture: seq<Drawn<V>>, added: seq<V>)
    requires f.start <= |f.vertices| && Consistent(f, picture)
    ensures Consistent(Step(f, Emit(added)), picture + Clipped(added, Top(f.stack)))
  {
    assert (picture + Clipped(added, Top(f.stack)))[..f.start] == picture[..f.start];
  }

  /** The stack of a scope, outermost first. */
  function StackOf(scope: Scope): (stack: seq<Rect>) {
    match scope
    case Screen => []
    case Within(clip, outer) => StackOf(outer) + [clip]
  }

  lemma {:induction false} RunConsistent<V>(ops: seq<Op<V>>)
    ensures Run(ops).stack == StackOf(ScopeAfter(ops)) && Consistent(Run(ops), Picture(ops))
  {
    hide Partition;
    if ops == [] {
      assert Partition<V>([], [], 0) by { NoSpans<V>(); }
    } else {
      var before, op := Run(ops[..|ops| - 1]), ops[|ops| - 1];
      var picture, scope := Picture(ops[..|ops| - 1]), ScopeAfter(ops[..|ops| - 1]);
      RunConsistent(ops[..|ops| - 1]);
      assert Top(StackOf(scope)) == ClipOf(scope);
      if op.Emit? {
        EmitConsistent(before, picture, op.vertices);
      } else {
        FlushConsistent(before, picture);
      }
    }
  }

  lemma NoSpans<V>()
    ensures Partition<V>([], [], 0)
  {
  }

  /** A whole frame holds exactly the emitted vertices, in order, and its spans partition them, each with the clip
      that was innermost when its vertices were emitted; so whenever there are vertices there are spans, and the
      renderer's fallback for none is never used. */
  lemma FrameIsPartitioned<V>(ops: seq<Op<V>>)
    ensures var f := Flushed(Run(ops));
            && Holds(f.vertices, Picture(ops))
            && Partition(f.spans, Picture(ops), 0)
            && (f.vertices != [] ==> f.spans != [])
  {
    RunConsistent(ops);
    FlushConsistent(Run(ops), Picture(ops));
    assert Picture(ops)[..|Picture(ops)|] == Picture(ops);
  }
}
