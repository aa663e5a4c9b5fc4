/** What `Run` does to its collaborators, as functions of the configuration
    and of the sequence of results the reader hands out: which epochs exist
    when the read phase ends, what each holds, in which order they were
    created, and how the read phase ends. `RouteAll` follows the loop one
    read at a time; `Grouped` and `FirstSeen` describe the same outcome
    directly over the lines, and `Outcome` proves the two agree. */
module Routing {
  import opened Wrappers

  /** One result of `Readln`: a line, the end of the stream, or any other
      read error. */
  datatype ReadResult = Line(text: string) | Eof | Fault(reason: string)

  /** The errors `Run` can return. */
  datatype Error = ReadError(reason: string) | CreateError(key: string) | UploadError(key: string)

  /** An epoch: its bucket key, the key format and output it was created
      with, and the lines written to it so far. */
  datatype Epoch = Epoch(key: string, keyFmt: string, output: string, lines: seq<string>)

  /** What the read loop depends on: the bucket key of each line (the
      aggregator's `parseEpoch`), the key format and output new epochs are
      created with, and the keys for which creating an epoch fails (standing
      for the file system `NewEpoch` works on). */
  datatype Config = Config(key: string -> string, keyFmt: string, output: string, unwritable: set<string>)

  /** `NewEpoch(key, keyFmt, output)`: a fresh, empty epoch, or an error
      when its target cannot be created. */
  function NewEpoch(cfg: Config, key: string): (r: Result<Epoch, Error>)
    ensures r.Success? <==> key !in cfg.unwritable
    ensures r.Success? ==> r.value.key == key && r.value.lines == []
    ensures r.Failure? ==> r.error == CreateError(key)
  {
    if key in cfg.unwritable then Failure(CreateError(key))
    else Success(Epoch(key, cfg.keyFmt, cfg.output, []))
  }

  /** `epoch.Write(l)`. */
  function Append(e: Epoch, l: string): (r: Epoch)
    ensures r.key == e.key && r.lines == e.lines + [l]
  {
    e.(lines := e.lines + [l])
  }

  /** The phase of the run: still reading, drained (EOF seen) or aborted. */
  datatype Phase = Reading | Drained | Aborted(err: Error)

  /** The manager's epochs and creation log, the number of results read,
      and the phase. */
  datatype LoopState = LoopState(epochs: map<string, Epoch>, created: seq<string>, read: nat, phase: Phase)

  const Start := LoopState(map[], [], 0, Reading)

  /** One iteration of the read loop: every iteration reads one result;
      EOF drains the loop and a read error aborts it; a line only adds to
      the manager, and an abort leaves the manager as it was. */
  function Route(cfg: Config, st: LoopState, r: ReadResult): (next: LoopState)
    ensures next.read == st.read + 1
    ensures r.Eof? ==> next.phase == Drained
    ensures r.Fault? ==> next.phase == Aborted(ReadError(r.reason))
    ensures r.Line? && st.phase.Reading? ==>
      (next.phase.Reading? <==> cfg.key(r.text) == "" || cfg.key(r.text) in st.epochs || cfg.key(r.text) !in cfg.unwritable)
    ensures r.Line? && !next.phase.Reading? && st.phase.Reading? ==>
      next.phase == Aborted(CreateError(cfg.key(r.text)))
    // Nothing is removed: existing epochs and the creation log survive.
    ensures st.epochs.Keys <= next.epochs.Keys && st.created <= next.created
    ensures |next.created| <= |st.created| + 1
    ensures next.phase.Aborted? && !st.phase.Aborted? ==> next.epochs == st.epochs && next.created == st.created
    // Only the epoch under the line's own key changes.
    ensures forall k | k in st.epochs && !(r.Line? && k == cfg.key(r.text)) :: next.epochs[k] == st.epochs[k]
  {
    match r
    case Eof => st.(read := st.read + 1, phase := Drained)
    case Fault(m) => st.(read := st.read + 1, phase := Aborted(ReadError(m)))
    case Line(l) =>
      var k := cfg.key(l);
      if k == "" then st.(read := st.read + 1)
      else if k in st.epochs then
        st.(read := st.read + 1, epochs := st.epochs[k := Append(st.epochs[k], l)])
      else
        match NewEpoch(cfg, k)
        case Failure(e) => st.(read := st.read + 1, phase := Aborted(e))
        case Success(e) =>
          st.(read := st.read + 1, epochs := st.epochs[k := Append(e, l)], created := st.created + [k])
  }

  /** The state after reading `rs` in order from `init`, stopping at the
      first EOF, read error or creation error. */
  function RouteAll(cfg: Config, init: LoopState, rs: seq<ReadResult>): (st: LoopState)
    // A loop that has already ended reads nothing more.
    ensures !init.phase.Reading? ==> st == init
    // At most one result is read per element, all of them while reading goes on.
    ensures init.read <= st.read <= init.read + |rs|
    ensures st.phase.Reading? ==> st.read == init.read + |rs|
    // Epochs and creations made before are kept.
    ensures init.epochs.Keys <= st.epochs.Keys && init.created <= st.created
    decreases |rs|
  {
    if rs == [] || !init.phase.Reading? then init
    else
      var st := RouteAll(cfg, init, rs[..|rs| - 1]);
      if st.phase.Reading? then Route(cfg, st, rs[|rs| - 1]) else st
  }

  // The reference description of the read phase.

  /** The lines among some read results, in order. */
  function Texts(rs: seq<ReadResult>): (ls: seq<string>)
    ensures |ls| <= |rs|
    decreases |rs|
  {
    if rs == [] then []
    else Texts(rs[..|rs| - 1]) + (if rs[|rs| - 1].Line? then [rs[|rs| - 1].text] else [])
  }

  /** The lines of `ls` whose key is `k`, in order. */
  function Select(cfg: Config, ls: seq<string>, k: string): (r: seq<string>)
    ensures |r| <= |ls|
    ensures forall i :: 0 <= i < |r| ==> r[i] in ls && cfg.key(r[i]) == k
    decreases |ls|
  {
    if ls == [] then []
    else
      var l := ls[|ls| - 1];
      Select(cfg, ls[..|ls| - 1], k) + (if cfg.key(l) == k then [l] else [])
  }

  /** The non-empty keys of `ls`. */
  function Keys(cfg: Config, ls: seq<string>): set<string> {
    set l | l in ls && cfg.key(l) != "" :: cfg.key(l)
  }

  /** One epoch per non-empty key of `ls`, holding that key's lines. */
  function Grouped(cfg: Config, ls: seq<string>): map<string, Epoch> {
    map k | k in Keys(cfg, ls) :: Epoch(k, cfg.keyFmt, cfg.output, Select(cfg, ls, k))
  }

  /** The non-empty keys of `ls` in the order of their first occurrence. */
  function FirstSeen(cfg: Config, ls: seq<string>): (ks: seq<string>)
    ensures forall i :: 0 <= i < |ks| ==> ks[i] != ""
    decreases |ls|
  {
    if ls == [] then []
    else
      var ks := FirstSeen(cfg, ls[..|ls| - 1]);
      var k := cfg.key(ls[|ls| - 1]);
      if k == "" || k in ks then ks else ks + [k]
  }

  /** A line whose epoch would have to be created but cannot be. */
  predicate CreateFails(cfg: Config, l: string) {
    cfg.key(l) != "" && cfg.key(l) in cfg.unwritable
  }

  /** How the read phase ends on the result that stops it. */
  function Ending(cfg: Config, r: ReadResult): Phase {
    match r
    case Eof => Drained
    case Fault(m) => Aborted(ReadError(m))
    case Line(l) => Aborted(CreateError(cfg.key(l)))
  }

  /** No key occurs twice in `ks`. */
  predicate Distinct(ks: seq<string>) {
    forall i, j :: 0 <= i < j < |ks| ==> ks[i] != ks[j]
  }

  // Lemmas about the reference description.

  lemma SelectSnoc(cfg: Config, ls: seq<string>, l: string, k: string)
    ensures Select(cfg, ls + [l], k) == Select(cfg, ls, k) + (if cfg.key(l) == k then [l] else [])
  {
    assert (ls + [l])[..|ls|] == ls;
  }

  lemma {:induction false} SelectAbsent(cfg: Config, ls: seq<string>, k: string)
    requires k !in Keys(cfg, ls) && k != ""
    ensures Select(cfg, ls, k) == []
    decreases |ls|
  {
    if ls != [] {
      var init := ls[..|ls| - 1];
      assert ls == init + [ls[|ls| - 1]];
      assert k !in Keys(cfg, init) by {
        forall l | l in init ensures !(cfg.key(l) != "" && cfg.key(l) == k) {
          assert l in ls;
        }
      }
      SelectAbsent(cfg, init, k);
      assert ls[|ls| - 1] in ls;
    }
  }

  /** No line of key `k` is missing from its selection. */
  lemma {:induction false} SelectComplete(cfg: Config, ls: seq<string>, k: string, l: string)
    requires l in ls && cfg.key(l) == k
    ensures l in Select(cfg, ls, k)
    decreases |ls|
  {
    var init := ls[..|ls| - 1];
    assert ls == init + [ls[|ls| - 1]];
    if l != ls[|ls| - 1] {
      SelectComplete(cfg, init, k, l);
    }
  }

  lemma KeysSnoc(cfg: Config, ls: seq<string>, l: string)
    ensures cfg.key(l) == "" ==> Keys(cfg, ls + [l]) == Keys(cfg, ls)
    ensures cfg.key(l) != "" ==> Keys(cfg, ls + [l]) == Keys(cfg, ls) + {cfg.key(l)}
  {
    assert forall x :: x in ls + [l] <==> x in ls || x == l;
  }

  lemma GroupedAt(cfg: Config, ls: seq<string>, l: string, x: string)
    requires x in Keys(cfg, ls + [l])
    ensures Grouped(cfg, ls + [l])[x] ==
      Epoch(x, cfg.keyFmt, cfg.output, Select(cfg, ls, x) + (if cfg.key(l) == x then [l] else []))
  {
    SelectSnoc(cfg, ls, l, x);
  }

  /** Reading a line without a key leaves the epochs as they were. */
  lemma GroupedSkip(cfg: Config, ls: seq<string>, l: string)
    requires cfg.key(l) == ""
    ensures Grouped(cfg, ls + [l]) == Grouped(cfg, ls)
  {
    KeysSnoc(cfg, ls, l);
    forall x | x in Keys(cfg, ls + [l])
      ensures Grouped(cfg, ls + [l])[x] == Grouped(cfg, ls)[x]
    {
      GroupedAt(cfg, ls, l, x);
    }
  }

  /** Reading a line with a key: that key's epoch gains the line at its
      end (a key seen for the first time gets an epoch holding just the
      line), and every other epoch stays as it was. */
  lemma GroupedAdd(cfg: Config, ls: seq<string>, l: string)
    requires cfg.key(l) != ""
    ensures Grouped(cfg, ls + [l]) ==
      Grouped(cfg, ls)[cfg.key(l) := Epoch(cfg.key(l), cfg.keyFmt, cfg.output, Select(cfg, ls, cfg.key(l)) + [l])]
  {
    var k := cfg.key(l);
    var expected := Grouped(cfg, ls)[k := Epoch(k, cfg.keyFmt, cfg.output, Select(cfg, ls, k) + [l])];
    KeysSnoc(cfg, ls, l);
    forall x | x in Keys(cfg, ls + [l])
      ensures Grouped(cfg, ls + [l])[x] == expected[x]
    {
      GroupedAt(cfg, ls, l, x);
    }
  }

  /** The creation log names each key of the lines once, in first-seen
      order. */
  lemma {:induction false} FirstSeenKeys(cfg: Config, ls: seq<string>)
    ensures Distinct(FirstSeen(cfg, ls))
    ensures forall k :: k in FirstSeen(cfg, ls) <==> k in Keys(cfg, ls)
    decreases |ls|
  {
    if ls != [] {
      var init := ls[..|ls| - 1];
      var l := ls[|ls| - 1];
      assert ls == init + [l];
      FirstSeenKeys(cfg, init);
      KeysSnoc(cfg, init, l);
    }
  }

  lemma TextsSnoc(rs: seq<ReadResult>, r: ReadResult)
    ensures Texts(rs + [r]) == Texts(rs) + (if r.Line? then [r.text] else [])
  {
    assert (rs + [r])[..|rs|] == rs;
  }

  /** The number of results read so far does not influence a step. */
  lemma RouteIgnoresCount(cfg: Config, epochs: map<string, Epoch>, created: seq<string>, m: nat, r: ReadResult)
    ensures Route(cfg, LoopState(epochs, created, m, Reading), r) ==
      Route(cfg, LoopState(epochs, created, 0, Reading), r).(read := m + 1)
  {
  }

  lemma RouteAllSnoc(cfg: Config, init: LoopState, rs: seq<ReadResult>, m: nat)
    requires m < |rs|
    ensures RouteAll(cfg, init, rs[..m + 1]) ==
      (var st := RouteAll(cfg, init, rs[..m]); if st.phase.Reading? then Route(cfg, st, rs[m]) else st)
  {
    assert rs[..m + 1][..m] == rs[..m];
  }

  /** While every result read is a line whose epoch can be created, the
      loop keeps reading and its state is the reference grouping of those
      lines. */
  lemma {:induction false} ReadingPrefix(cfg: Config, rs: seq<ReadResult>, m: nat)
    requires m <= |rs|
    requires forall i :: 0 <= i < m ==> rs[i].Line? && !CreateFails(cfg, rs[i].text)
    ensures RouteAll(cfg, Start, rs[..m]) ==
      LoopState(Grouped(cfg, Texts(rs[..m])), FirstSeen(cfg, Texts(rs[..m])), m, Reading)
  {
    if m == 0 {
      assert rs[..0] == [];
      assert Grouped(cfg, []) == map[];
    } else {
      ReadingPrefix(cfg, rs, m - 1);
      PrefixExtend(cfg, rs, m);
    }
  }

  lemma PrefixExtend(cfg: Config, rs: seq<ReadResult>, m: nat)
    requires 0 < m <= |rs|
    requires rs[m - 1].Line? && !CreateFails(cfg, rs[m - 1].text)
    requires RouteAll(cfg, Start, rs[..m - 1]) ==
      LoopState(Grouped(cfg, Texts(rs[..m - 1])), FirstSeen(cfg, Texts(rs[..m - 1])), m - 1, Reading)
    ensures RouteAll(cfg, Start, rs[..m]) ==
      LoopState(Grouped(cfg, Texts(rs[..m])), FirstSeen(cfg, Texts(rs[..m])), m, Reading)
  {
    var a, l := rs[..m - 1], rs[m - 1].text;
    assert rs[..m] == a + [Line(l)];
    PrefixStep(cfg, a, l);
  }

  lemma PrefixStep(cfg: Config, a: seq<ReadResult>, l: string)
    requires !CreateFails(cfg, l)
    requires RouteAll(cfg, Start, a) == LoopState(Grouped(cfg, Texts(a)), FirstSeen(cfg, Texts(a)), |a|, Reading)
    ensures RouteAll(cfg, Start, a + [Line(l)]) ==
      LoopState(Grouped(cfg, Texts(a + [Line(l)])), FirstSeen(cfg, Texts(a + [Line(l)])), |a| + 1, Reading)
  {
    assert (a + [Line(l)])[..|a|] == a;
    TextsSnoc(a, Line(l));
    ReadLine(cfg, Texts(a), l, |a|);
  }

  /** Reading a line whose epoch can be created, from the reference state
      of the lines before it, gives the reference state of all of them. */
  lemma ReadLine(cfg: Config, ls: seq<string>, l: string, m: nat)
    requires !CreateFails(cfg, l)
    ensures Route(cfg, LoopState(Grouped(cfg, ls), FirstSeen(cfg, ls), m, Reading), Line(l)) ==
      LoopState(Grouped(cfg, ls + [l]), FirstSeen(cfg, ls + [l]), m + 1, Reading)
  {
    var k := cfg.key(l);
    assert (ls + [l])[..|ls|] == ls;
    if k == "" {
      GroupedSkip(cfg, ls, l);
    } else {
      GroupedAdd(cfg, ls, l);
      FirstSeenKeys(cfg, ls);
      if k !in Keys(cfg, ls) {
        SelectAbsent(cfg, ls, k);
      }
    }
  }

  /** Once the loop has stopped, later results change nothing. */
  lemma {:induction false} Stopped(cfg: Config, init: LoopState, rs: seq<ReadResult>, n: nat, m: nat)
    requires n <= m <= |rs|
    requires !RouteAll(cfg, init, rs[..n]).phase.Reading?
    ensures RouteAll(cfg, init, rs[..m]) == RouteAll(cfg, init, rs[..n])
    decreases m - n
  {
    if n < m {
      Stopped(cfg, init, rs, n, m - 1);
      RouteAllSnoc(cfg, init, rs, m - 1);
    }
  }

  /** The outcome of the read phase. If results `0..n-1` are lines whose
      epochs can be created and result `n` is the first that is not (an EOF,
      a read error, or a line whose new epoch cannot be created), then the
      loop reads `n + 1` results, ends as `Ending` says, and leaves one epoch
      per non-empty key of the first `n` lines holding exactly that key's
      lines in read order, created in first-seen order. */
  lemma Outcome(cfg: Config, rs: seq<ReadResult>, n: nat)
    requires n < |rs|
    requires forall i :: 0 <= i < n ==> rs[i].Line? && !CreateFails(cfg, rs[i].text)
    requires !rs[n].Line? || CreateFails(cfg, rs[n].text)
    ensures RouteAll(cfg, Start, rs) ==
      LoopState(Grouped(cfg, Texts(rs[..n])), FirstSeen(cfg, Texts(rs[..n])), n + 1, Ending(cfg, rs[n]))
  {
    StopAt(cfg, rs, n);
    Stopped(cfg, Start, rs, n + 1, |rs|);
    assert rs[..|rs|] == rs;
  }

  /** The result that stops the loop ends the read phase and changes
      nothing else. */
  lemma StopAt(cfg: Config, rs: seq<ReadResult>, n: nat)
    requires n < |rs|
    requires forall i :: 0 <= i < n ==> rs[i].Line? && !CreateFails(cfg, rs[i].text)
    requires !rs[n].Line? || CreateFails(cfg, rs[n].text)
    ensures RouteAll(cfg, Start, rs[..n + 1]) ==
      LoopState(Grouped(cfg, Texts(rs[..n])), FirstSeen(cfg, Texts(rs[..n])), n + 1, Ending(cfg, rs[n]))
  {
    ReadingPrefix(cfg, rs, n);
    RouteAllSnoc(cfg, Start, rs, n);
    if rs[n].Line? {
      Uncreatable(cfg, rs, n);
    }
  }

  /** A key whose epoch cannot be created never names an epoch: no line
      read before has it. */
  lemma Uncreatable(cfg: Config, rs: seq<ReadResult>, n: nat)
    requires n < |rs|
    requires forall i :: 0 <= i < n ==> rs[i].Line? && !CreateFails(cfg, rs[i].text)
    requires rs[n].Line? && CreateFails(cfg, rs[n].text)
    ensures cfg.key(rs[n].text) !in Keys(cfg, Texts(rs[..n]))
  {
    var k := cfg.key(rs[n].text);
    if k in Keys(cfg, Texts(rs[..n])) {
      var l :| l in Texts(rs[..n]) && cfg.key(l) == k;
      TextsMember(rs[..n], l);
      assert false;
    }
  }

  /** Every line among the results comes from one of them. */
  lemma {:induction false} TextsMember(rs: seq<ReadResult>, l: string)
    requires l in Texts(rs)
    ensures exists i :: 0 <= i < |rs| && rs[i] == Line(l)
    decreases |rs|
  {
    var init := rs[..|rs| - 1];
    assert rs == init + [rs[|rs| - 1]];
    if l in Texts(init) {
      TextsMember(init, l);
      var i :| 0 <= i < |init| && init[i] == Line(l);
      assert rs[i] == Line(l);
    } else {
      assert rs[|rs| - 1] == Line(l);
    }
  }

  /** Every run of the read loop over a stream that ends in EOF stops, at
      the first result that is not a line whose epoch can be created. */
  lemma {:induction false} Stops(cfg: Config, rs: seq<ReadResult>)
    requires |rs| > 0 && rs[|rs| - 1] == Eof
    ensures exists n ::
      && 0 <= n < |rs|
      && (forall i :: 0 <= i < n ==> rs[i].Line? && !CreateFails(cfg, rs[i].text))
      && (!rs[n].Line? || CreateFails(cfg, rs[n].text))
  {
    var n := 0;
    while n < |rs| - 1 && rs[n].Line? && !CreateFails(cfg, rs[n].text)
      invariant 0 <= n < |rs|
      invariant forall i :: 0 <= i < n ==> rs[i].Line? && !CreateFails(cfg, rs[i].text)
      decreases |rs| - n
    {
      n := n + 1;
    }
  }

  /** The state of the read loop keeps the manager's invariant: one epoch
      per created key, stored under its own key, each key created once. */
  predicate Consistent(st: LoopState) {
    Distinct(st.created)
    && (forall k :: k in st.epochs ==> k in st.created)
    && (forall i :: 0 <= i < |st.created| ==> st.created[i] in st.epochs)
    && (forall k :: k in st.epochs ==> st.epochs[k].key == k)
  }

  lemma {:induction false} RouteAllConsistent(cfg: Config, init: LoopState, rs: seq<ReadResult>)
    requires Consistent(init)
    ensures Consistent(RouteAll(cfg, init, rs))
    decreases |rs|
  {
    if rs != [] && init.phase.Reading? {
      RouteAllConsistent(cfg, init, rs[..|rs| - 1]);
      RouteConsistent(cfg, RouteAll(cfg, init, rs[..|rs| - 1]), rs[|rs| - 1]);
    }
  }

  lemma RouteConsistent(cfg: Config, st: LoopState, r: ReadResult)
    requires Consistent(st)
    ensures Consistent(Route(cfg, st, r))
  {
    if r.Line? && cfg.key(r.text) != "" && cfg.key(r.text) !in st.epochs {
      var k := cfg.key(r.text);
      assert k !in st.created;
    }
  }
}
