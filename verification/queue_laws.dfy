/** Laws of the comment queue over whole sessions: a session is a sequence of
    admissions and releases applied to a queue, and its observable outcome is
    the list of results the releases returned. */
module QueueLaws {
  import opened Wrappers
  import opened Engine

  /** One call into the queue: `add_comment` or `pop_next_text`. */
  datatype Op = Admit(id: i32, author: string, text: string) | Release

  /** The queue after a session, and what each release returned, in order. */
  datatype Trace = Trace(queue: CommentQueue, outputs: seq<Option<string>>)

  /** The number of releases in `ops`. */
  function ReleaseCount(ops: seq<Op>): (n: nat)
    ensures n <= |ops|
  {
    if ops == [] then 0
    else (if ops[0].Release? then 1 else 0) + ReleaseCount(ops[1..])
  }

  /** The text `op` admits, if it is an admission. */
  function AdmittedBy(op: Op): seq<string>
  {
    if op.Admit? then [op.text] else []
  }

  /** The texts admitted by `ops`, in admission order. */
  function Admitted(ops: seq<Op>): seq<string>
  {
    if ops == [] then [] else AdmittedBy(ops[0]) + Admitted(ops[1..])
  }

  /** The texts actually released, in release order (empty-queue signals dropped). */
  function Released(outputs: seq<Option<string>>): seq<string>
  {
    if outputs == [] then []
    else (if outputs[0].Some? then [outputs[0].value] else []) + Released(outputs[1..])
  }

  /** The number of empty-queue signals in `outputs`. */
  function EmptyCount(outputs: seq<Option<string>>): nat
  {
    if outputs == [] then 0
    else (if outputs[0].None? then 1 else 0) + EmptyCount(outputs[1..])
  }

  /** One call: an admission returns nothing, a release returns one result. */
  function Step(q: CommentQueue, op: Op): (t: Trace)
    ensures op.Admit? ==> t.outputs == []
    ensures op.Release? ==> |t.outputs| == 1
  {
    match op
    case Admit(id, author, text) => Trace(AddComment(q, id, author, text), [])
    case Release =>
      var p := PopNextText(q);
      Trace(p.queue, [p.text])
  }

  /** Applies `ops` to `q` in order; each release contributes exactly one output. */
  function Run(q: CommentQueue, ops: seq<Op>): (t: Trace)
    ensures |t.outputs| == ReleaseCount(ops)
    decreases |ops|
  {
    if ops == [] then Trace(q, [])
    else
      var s := Step(q, ops[0]);
      var t := Run(s.queue, ops[1..]);
      Trace(t.queue, s.outputs + t.outputs)
  }

  /** A session that admits `cs` in order. */
  function AdmitAll(cs: seq<Comment>): (ops: seq<Op>)
  {
    seq(|cs|, i requires 0 <= i < |cs| => Admit(cs[i].id, cs[i].author, cs[i].text))
  }

  /** A session of `n` releases. */
  function ReleaseAll(n: nat): (ops: seq<Op>)
  {
    seq(n, _ => Release)
  }

  /** `ops1` and `ops2` make the same calls in the same order with the same
      texts; ids and authors may differ. */
  ghost predicate SameTexts(ops1: seq<Op>, ops2: seq<Op>)
  {
    && |ops1| == |ops2|
    && forall i :: 0 <= i < |ops1| ==>
         && ops1[i].Release? == ops2[i].Release?
         && (ops1[i].Admit? ==> ops1[i].text == ops2[i].text)
  }

  lemma TextsAppend(a: seq<Comment>, b: seq<Comment>)
    ensures Texts(a + b) == Texts(a) + Texts(b)
  {
  }

  lemma {:induction false} ReleasedAndEmptiesCoverOutputs(outputs: seq<Option<string>>)
    ensures |Released(outputs)| + EmptyCount(outputs) == |outputs|
  {
    if outputs != [] {
      ReleasedAndEmptiesCoverOutputs(outputs[1..]);
    }
  }

  lemma {:induction false} ReleasedAppend(a: seq<Option<string>>, b: seq<Option<string>>)
    ensures Released(a + b) == Released(a) + Released(b)
    decreases |a|
  {
    if a == [] {
      assert a + b == b;
    } else {
      assert (a + b)[1..] == a[1..] + b;
      ReleasedAppend(a[1..], b);
    }
  }

  /** One call keeps the order: what it releases, followed by what is then
      queued, is what was queued followed by what it admits. */
  lemma StepPreservesOrder(q: CommentQueue, op: Op)
    ensures Released(Step(q, op).outputs) + Texts(Step(q, op).queue.items)
            == Texts(q.items) + AdmittedBy(op)
  {
    match op
    case Admit(id, author, text) =>
      TextsAppend(q.items, [Comment(id, author, text)]);
    case Release =>
      if |q.items| > 0 {
        TextsAppend([q.items[0]], PopNextText(q).queue.items);
      }
  }

  /** Re-association that chains one step's conservation with the rest's. */
  lemma Chain<T>(rs: seq<T>, qs: seq<T>, t0: seq<T>, a0: seq<T>, rt: seq<T>, qf: seq<T>, at: seq<T>)
    requires rs + qs == t0 + a0
    requires rt + qf == qs + at
    ensures (rs + rt) + qf == t0 + (a0 + at)
  {
    calc {
      (rs + rt) + qf;
      rs + (rt + qf);
      rs + (qs + at);
      (rs + qs) + at;
      (t0 + a0) + at;
    }
  }

  /** Conservation in order: what has been released, followed by what is still
      queued, is exactly what was queued at the start followed by everything
      admitted. Nothing is dropped, duplicated, altered or reordered. */
  lemma {:induction false} RunPreservesOrder(q: CommentQueue, ops: seq<Op>)
    ensures Released(Run(q, ops).outputs) + Texts(Run(q, ops).queue.items)
            == Texts(q.items) + Admitted(ops)
    decreases |ops|
  {
    if ops != [] {
      var s := Step(q, ops[0]);
      var t := Run(s.queue, ops[1..]);
      StepPreservesOrder(q, ops[0]);
      RunPreservesOrder(s.queue, ops[1..]);
      ReleasedAppend(s.outputs, t.outputs);
      Chain(Released(s.outputs), Texts(s.queue.items), Texts(q.items), AdmittedBy(ops[0]),
            Released(t.outputs), Texts(t.queue.items), Admitted(ops[1..]));
    }
  }

  /** Length bookkeeping: every admission adds one comment and every
      successful release removes one; when no release met an empty queue,
      n admissions and k releases leave n - k more comments than at the start. */
  lemma RunLength(q: CommentQueue, ops: seq<Op>)
    ensures |Run(q, ops).queue.items| + |Released(Run(q, ops).outputs)|
            == |q.items| + |Admitted(ops)|
    ensures EmptyCount(Run(q, ops).outputs) == 0 ==>
              |Run(q, ops).queue.items| == |q.items| + |Admitted(ops)| - ReleaseCount(ops)
  {
    RunPreservesOrder(q, ops);
    ReleasedAndEmptiesCoverOutputs(Run(q, ops).outputs);
    assert |Released(Run(q, ops).outputs) + Texts(Run(q, ops).queue.items)|
           == |Texts(q.items) + Admitted(ops)|;
  }

  /** Starting from a new queue, the released texts are always a prefix of the
      admitted texts: the queue releases in admission order. */
  lemma ReleasedIsPrefixOfAdmitted(ops: seq<Op>)
    ensures |Released(Run(New(), ops).outputs)| <= |Admitted(ops)|
    ensures Released(Run(New(), ops).outputs)
            == Admitted(ops)[..|Released(Run(New(), ops).outputs)|]
  {
    RunPreservesOrder(New(), ops);
    assert Texts(New().items) == [];
    var rel := Released(Run(New(), ops).outputs);
    assert rel + Texts(Run(New(), ops).queue.items) == Admitted(ops);
    assert Admitted(ops)[..|rel|] == (rel + Texts(Run(New(), ops).queue.items))[..|rel|];
  }

  /** Running two sessions one after the other is running their concatenation. */
  lemma {:induction false} RunAppend(q: CommentQueue, a: seq<Op>, b: seq<Op>)
    ensures Run(q, a + b)
            == Trace(Run(Run(q, a).queue, b).queue,
                     Run(q, a).outputs + Run(Run(q, a).queue, b).outputs)
    decreases |a|
  {
    if a == [] {
      assert a + b == b;
    } else {
      assert (a + b)[0] == a[0];
      assert (a + b)[1..] == a[1..] + b;
      var s := Step(q, a[0]);
      RunAppend(s.queue, a[1..], b);
      var mid := Run(s.queue, a[1..]);
      assert s.outputs + (mid.outputs + Run(mid.queue, b).outputs)
             == (s.outputs + mid.outputs) + Run(mid.queue, b).outputs;
    }
  }

  /** Admitting `cs` appends `cs`, unchanged, to the queue and releases nothing. */
  lemma {:induction false} RunAdmitAll(q: CommentQueue, cs: seq<Comment>)
    ensures Run(q, AdmitAll(cs)) == Trace(CommentQueue(q.items + cs), [])
    decreases |cs|
  {
    if cs == [] {
      assert q.items + cs == q.items;
    } else {
      var c := cs[0];
      var q' := AddComment(q, c.id, c.author, c.text);
      assert AdmitAll(cs)[0] == Admit(c.id, c.author, c.text);
      assert AdmitAll(cs)[1..] == AdmitAll(cs[1..]);
      assert Run(q, AdmitAll(cs)) == Run(q', AdmitAll(cs[1..]));
      RunAdmitAll(q', cs[1..]);
      assert q'.items + cs[1..] == q.items + cs;
    }
  }

  /** `n` releases on a queue holding at least `n` comments return the first
      `n` texts in queue order, and leave the rest queued. */
  lemma {:induction false} RunReleaseAll(q: CommentQueue, n: nat)
    requires n <= |q.items|
    ensures Run(q, ReleaseAll(n)).queue == CommentQueue(q.items[n..])
    ensures Run(q, ReleaseAll(n)).outputs
            == seq(n, i requires 0 <= i < n => Some(q.items[i].text))
    decreases n
  {
    if n > 0 {
      var p := PopNextText(q);
      assert ReleaseAll(n)[1..] == ReleaseAll(n - 1);
      RunReleaseAll(p.queue, n - 1);
      assert p.queue.items[n - 1..] == q.items[n..];
    }
  }

  /** Releasing from an empty queue, any number of times, signals emptiness
      every time and leaves the queue empty. */
  lemma {:induction false} RunReleaseAllOnEmpty(q: CommentQueue, n: nat)
    requires |q.items| == 0
    ensures Run(q, ReleaseAll(n)) == Trace(q, seq(n, _ => None))
    decreases n
  {
    if n > 0 {
      assert ReleaseAll(n)[1..] == ReleaseAll(n - 1);
      RunReleaseAllOnEmpty(q, n - 1);
    }
  }

  /** Releasing once more than the queue holds returns every text in queue
      order, then the empty signal, and leaves the queue empty. */
  lemma DrainQueue(q: CommentQueue)
    ensures Run(q, ReleaseAll(|q.items| + 1))
            == Trace(New(), seq(|q.items|, i requires 0 <= i < |q.items| => Some(q.items[i].text)) + [None])
  {
    var n := |q.items|;
    assert ReleaseAll(n + 1) == ReleaseAll(n) + [Release];
    RunAppend(q, ReleaseAll(n), [Release]);
    RunReleaseAll(q, n);
    assert q.items[n..] == [];
    assert Run(New(), [Release]) == Trace(New(), [None]);
  }

  /** FIFO: after admitting comments c1..cn into a new queue, n + 1 releases
      return Some(t1), ..., Some(tn) and then the empty signal, whatever the
      ids and authors were; the queue ends empty. */
  lemma FifoDrain(cs: seq<Comment>)
    ensures Run(New(), AdmitAll(cs) + ReleaseAll(|cs| + 1)).outputs
            == seq(|cs|, i requires 0 <= i < |cs| => Some(cs[i].text)) + [None]
    ensures Run(New(), AdmitAll(cs) + ReleaseAll(|cs| + 1)).queue == New()
  {
    RunAdmitAll(New(), cs);
    assert New().items + cs == cs;
    RunAppend(New(), AdmitAll(cs), ReleaseAll(|cs| + 1));
    DrainQueue(CommentQueue(cs));
  }

  /** A release signals emptiness exactly when everything ever queued has
      already been released. */
  lemma ReleaseEmptyIffAllReleased(q: CommentQueue, ops: seq<Op>)
    ensures var outputs := Run(q, ops + [Release]).outputs;
            && |outputs| > 0
            && (outputs[|outputs| - 1].None?
                <==> Released(Run(q, ops).outputs) == Texts(q.items) + Admitted(ops))
  {
    RunAppend(q, ops, [Release]);
    RunPreservesOrder(q, ops);
    var t := Run(q, ops);
    assert Run(t.queue, [Release]).outputs == [PopNextText(t.queue).text];
    if Released(t.outputs) == Texts(q.items) + Admitted(ops) {
      assert |Texts(t.queue.items)| == 0;
    }
  }

  /** Only texts decide a session's outcome: `id` and `author` are never read,
      so sessions that differ only in them release the same results and leave
      the same texts queued. */
  lemma {:induction false} RunIgnoresIdAndAuthor(q1: CommentQueue, q2: CommentQueue, ops1: seq<Op>, ops2: seq<Op>)
    requires Texts(q1.items) == Texts(q2.items)
    requires SameTexts(ops1, ops2)
    ensures Run(q1, ops1).outputs == Run(q2, ops2).outputs
    ensures Texts(Run(q1, ops1).queue.items) == Texts(Run(q2, ops2).queue.items)
    decreases |ops1|
  {
    if ops1 != [] {
      assert SameTexts(ops1[1..], ops2[1..]) by {
        forall i | 0 <= i < |ops1[1..]|
          ensures ops1[1..][i].Release? == ops2[1..][i].Release?
          ensures ops1[1..][i].Admit? ==> ops1[1..][i].text == ops2[1..][i].text
        {
          assert ops1[1..][i] == ops1[i + 1] && ops2[1..][i] == ops2[i + 1];
        }
      }
      match ops1[0]
      case Admit(id1, author1, text) =>
        var o2 := ops2[0];
        var q1' := AddComment(q1, id1, author1, text);
        var q2' := AddComment(q2, o2.id, o2.author, o2.text);
        TextsAppend(q1.items, [Comment(id1, author1, text)]);
        TextsAppend(q2.items, [Comment(o2.id, o2.author, o2.text)]);
        assert q1'.items == q1.items + [Comment(id1, author1, text)];
        assert q2'.items == q2.items + [Comment(o2.id, o2.author, o2.text)];
        RunIgnoresIdAndAuthor(q1', q2', ops1[1..], ops2[1..]);
      case Release =>
        var p1 := PopNextText(q1);
        var p2 := PopNextText(q2);
        if |q1.items| > 0 {
          assert Texts(p1.queue.items) == Texts(q1.items)[1..];
          assert Texts(p2.queue.items) == Texts(q2.items)[1..];
        }
        RunIgnoresIdAndAuthor(p1.queue, p2.queue, ops1[1..], ops2[1..]);
    }
  }

  /** An empty text is admitted and released as `Some("")`, distinct from the
      empty-queue signal. */
  lemma EmptyTextIsReleased(id: i32, author: string)
    ensures PopNextText(AddComment(New(), id, author, "")).text == Some("")
    ensures PopNextText(AddComment(New(), id, author, "")).text != None
  {
  }

  /** Three admissions with ids 1, 5, 5 release in admission order, not by id. */
  lemma IdDoesNotReorder()
    ensures Run(New(), [Admit(1, "A", "hello"), Admit(5, "B", "world"), Admit(5, "C", "there"),
                        Release, Release, Release, Release]).outputs
            == [Some("hello"), Some("world"), Some("there"), None]
  {
  }
}
