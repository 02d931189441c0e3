/**
 * The server's shared registry: a `HashMap<String, PrintWriter>` from each
 * registered handle to the writer of its connection, together with what
 * every writer has printed so far. A writer is named by the number of its
 * connection; printing a line appends it to that writer's output.
 */
module HandleRegistry {
  import opened JavaLang

  /** The identity of one connection's `PrintWriter`. */
  type Writer = nat

  /** `n` copies of `line`, one after the other. */
  function Repeat(line: string, n: nat): (r: seq<string>)
    ensures |r| == n
    ensures forall i :: 0 <= i < n ==> r[i] == line
  {
    if n == 0 then [] else Repeat(line, n - 1) + [line]
  }

  /** One more copy in front is one more copy. */
  lemma RepeatCons(line: string, n: nat)
    ensures [line] + Repeat(line, n) == Repeat(line, n + 1)
  {
    assert forall i :: 0 <= i < n + 1 ==> ([line] + Repeat(line, n))[i] == line;
  }

  /** The handles that `m` maps to writer `w`. */
  function HandlesOf(m: map<string, Writer>, w: Writer): set<string>
  {
    set k | k in m && m[k] == w
  }

  /**
   * How many entries of `m` lead to writer `w`: iterating `values()` and
   * printing to each prints that many copies on `w`.
   */
  function Fanout(m: map<string, Writer>, w: Writer): nat
  {
    |HandlesOf(m, w)|
  }

  /** No two handles share a writer. */
  predicate Injective(m: map<string, Writer>)
  {
    forall j, k :: j in m && k in m && m[j] == m[k] ==> j == k
  }

  /** When handles have distinct writers, every registered writer is reached exactly once. */
  lemma FanoutOfInjective(m: map<string, Writer>, w: Writer)
    requires Injective(m)
    ensures Fanout(m, w) == if w in m.Values then 1 else 0
  {
    if w in m.Values {
      var k :| k in m && m[k] == w;
      assert HandlesOf(m, w) == {k};
    } else {
      assert HandlesOf(m, w) == {};
    }
  }

  /** Registering a handle under a writer nobody uses keeps the handles' writers distinct. */
  lemma PutFreshKeepsInjective(m: map<string, Writer>, k: string, w: Writer)
    requires Injective(m) && w !in m.Values
    ensures Injective(m[k := w])
  {
  }

  /**
   * `m` after `remove(name)` for a possibly-null `name`: the handle is gone
   * and every other entry is kept.
   */
  function WithoutHandle(m: map<string, Writer>, name: Option<string>): (r: map<string, Writer>)
    ensures name.Some? ==> name.value !in r
    ensures forall k :: k in m && name != Some(k) ==> k in r && r[k] == m[k]
    ensures r.Keys <= m.Keys
  {
    if name.Some? then m - {name.value} else m
  }

  /** Removing a handle twice is the same as removing it once. */
  lemma WithoutHandleIdempotent(m: map<string, Writer>, name: Option<string>)
    ensures WithoutHandle(WithoutHandle(m, name), name) == WithoutHandle(m, name)
  {
  }

  /**
   * `m` after `remove(name, w)`: the entry goes only when `name` is
   * registered with exactly that writer.
   */
  function WithoutEntry(m: map<string, Writer>, name: Option<string>, w: Writer): (r: map<string, Writer>)
    ensures forall k :: k in m && m[k] != w ==> k in r && r[k] == m[k]
    ensures forall k :: k in m && Some(k) != name ==> k in r && r[k] == m[k]
    ensures name.Some? && name.value in m && m[name.value] == w ==> r == m - {name.value}
    ensures !(name.Some? && name.value in m && m[name.value] == w) ==> r == m
    ensures r.Keys <= m.Keys
  {
    if name.Some? && name.value in m && m[name.value] == w then m - {name.value} else m
  }

  /** Visiting handle `k` reaches writer `w` once more exactly when `k` is registered with `w`. */
  lemma OneMoreReached(m: map<string, Writer>, w: Writer, rest: set<string>, k: string)
    requires k in rest && k in m
    ensures |HandlesOf(m, w) - (rest - {k})| == |HandlesOf(m, w) - rest| + if m[k] == w then 1 else 0
  {
    if m[k] == w {
      assert HandlesOf(m, w) - (rest - {k}) == (HandlesOf(m, w) - rest) + {k};
    } else {
      assert HandlesOf(m, w) - (rest - {k}) == HandlesOf(m, w) - rest;
    }
  }

  /** What writer `w` has printed, according to the record `p`. */
  function OutputIn(p: map<Writer, seq<string>>, w: Writer): seq<string>
  {
    if w in p then p[w] else []
  }

  /**
   * Part way through a broadcast of `line` that has still to visit the
   * handles in `rest`: every writer has printed one copy per handle of it
   * already visited.
   */
  ghost predicate Progress(start: map<Writer, seq<string>>, p: map<Writer, seq<string>>, m: map<string, Writer>, rest: set<string>, line: string)
  {
    forall w :: OutputIn(p, w) == OutputIn(start, w) + Repeat(line, |HandlesOf(m, w) - rest|)
  }

  /** Visiting one more handle and printing to its writer keeps `Progress`. */
  lemma SendStep(start: map<Writer, seq<string>>, p: map<Writer, seq<string>>, m: map<string, Writer>, rest: set<string>, k: string, line: string)
    requires Progress(start, p, m, rest, line)
    requires k in rest && k in m
    ensures Progress(start, p[m[k] := OutputIn(p, m[k]) + [line]], m, rest - {k}, line)
  {
    var q := p[m[k] := OutputIn(p, m[k]) + [line]];
    forall w
      ensures OutputIn(q, w) == OutputIn(start, w) + Repeat(line, |HandlesOf(m, w) - (rest - {k})|)
    {
      OneMoreReached(m, w, rest, k);
      var n := |HandlesOf(m, w) - rest|;
      assert OutputIn(p, w) == OutputIn(start, w) + Repeat(line, n);
      if m[k] == w {
        assert OutputIn(q, w) == OutputIn(p, w) + [line];
        assert Repeat(line, n + 1) == Repeat(line, n) + [line];
        AppendAssoc(OutputIn(start, w), Repeat(line, n), [line]);
      } else {
        assert OutputIn(q, w) == OutputIn(p, w);
      }
    }
  }

  /**
   * Visiting every handle of `m` once and printing `line` on its writer,
   * starting from the record `p`: each writer ends up with one more copy
   * per handle registered with it, whatever order the handles are visited in.
   */
  method PrintToAll(p: map<Writer, seq<string>>, m: map<string, Writer>, line: string) returns (q: map<Writer, seq<string>>)
    ensures forall w :: OutputIn(q, w) == OutputIn(p, w) + Repeat(line, Fanout(m, w))
  {
    var rest := m.Keys;
    q := p;
    forall w ensures HandlesOf(m, w) - rest == {} {
      assert HandlesOf(m, w) <= rest;
    }
    while rest != {}
      invariant rest <= m.Keys
      invariant Progress(p, q, m, rest, line)
      decreases rest
    {
      var k :| k in rest;
      SendStep(p, q, m, rest, k, line);
      var target: Writer := m[k];
      q := q[target := OutputIn(q, target) + [line]];
      rest := rest - {k};
    }
    assert forall w :: HandlesOf(m, w) - rest == HandlesOf(m, w);
  }

  class Registry {
    /** `clientWriters` (`userWriters` in the older server). */
    var writers: map<string, Writer>
    /** Every line each writer has printed, in order. */
    var printed: map<Writer, seq<string>>

    constructor ()
      ensures writers == map[]
      ensures forall w :: Output(w) == []
    {
      writers := map[];
      printed := map[];
    }

    /** What writer `w` has printed so far. */
    function Output(w: Writer): seq<string>
      reads this
    {
      OutputIn(printed, w)
    }

    /** `writer.println(line)`. */
    method Println(w: Writer, line: string)
      modifies this
      ensures writers == old(writers)
      ensures Output(w) == old(Output(w)) + [line]
      ensures forall v :: v != w ==> Output(v) == old(Output(v))
      ensures printed == old(printed)[w := old(Output(w)) + [line]]
    {
      printed := printed[w := Output(w) + [line]];
    }

    /** `containsKey(name)`. */
    predicate ContainsKey(name: string): (b: bool)
      reads this
      ensures b ==> name in writers && writers[name] in writers.Values
      ensures !b ==> WithoutHandle(writers, Some(name)) == writers
    {
      name in writers
    }

    /** `put(name, w)`. */
    method Put(name: string, w: Writer)
      modifies this
      ensures writers == old(writers)[name := w]
      ensures printed == old(printed)
    {
      writers := writers[name := w];
    }

    /** `remove(name)`. */
    method Remove(name: string)
      modifies this
      ensures writers == old(writers) - {name}
      ensures printed == old(printed)
    {
      writers := writers - {name};
    }

    /** `remove(name, w)`, where `name` may be null. */
    method RemoveEntry(name: Option<string>, w: Writer)
      modifies this
      ensures writers == WithoutEntry(old(writers), name, w)
      ensures printed == old(printed)
    {
      if name.Some? && name.value in writers && writers[name.value] == w {
        writers := writers - {name.value};
      }
    }

    /**
     * The handles in the order an iteration of `keySet()` visits them: each
     * registered handle exactly once, in an order the map does not promise.
     */
    method Keys() returns (handles: seq<string>)
      ensures forall k :: k in handles <==> k in writers
      ensures forall i, j :: 0 <= i < j < |handles| ==> handles[i] != handles[j]
    {
      handles := [];
      var rest := writers.Keys;
      while rest != {}
        invariant rest <= writers.Keys
        invariant forall k :: k in handles <==> k in writers && k !in rest
        invariant forall i, j :: 0 <= i < j < |handles| ==> handles[i] != handles[j]
        decreases rest
      {
        var k :| k in rest;
        handles := handles + [k];
        rest := rest - {k};
      }
    }

    /**
     * `for (PrintWriter writer : values()) writer.println(line)`: every
     * writer prints `line` once for each handle registered with it.
     */
    method SendToAll(line: string)
      modifies this
      ensures writers == old(writers)
      ensures forall w :: Output(w) == old(Output(w)) + Repeat(line, Fanout(writers, w))
    {
      printed := PrintToAll(printed, writers, line);
    }
  }
}
