/** The aggregator (`pkg/aggregator/aggregator.go`) and the collaborators it
    drives: a line reader, an epoch manager holding one epoch per bucket
    key, and an uploader. `Run` reads every line, routes it to the epoch of
    its key, and after the end of the stream uploads every epoch; the
    deferred `Close` closes the reader and the manager on every way out. */
module Pipeline {
  import opened Wrappers
  import opened Routing
  import EpochKey

  /** The buffered line reader: it hands out a fixed sequence of results,
      then EOF for ever. */
  class LineReader {
    const results: seq<ReadResult>
    var pos: nat
    var closes: nat

    constructor (results: seq<ReadResult>)
      ensures this.results == results && pos == 0 && closes == 0
    {
      this.results := results;
      pos := 0;
      closes := 0;
    }

    /** The results still to come: the unread ones, then EOF. */
    function Pending(): (rs: seq<ReadResult>)
      reads this
      ensures |rs| > 0 && rs[|rs| - 1] == Eof
      ensures forall i :: 0 <= i < |rs| ==> rs[i] == (if pos + i < |results| then results[pos + i] else Eof)
    {
      (if pos < |results| then results[pos..] else []) + [Eof]
    }

    /** `Readln`: the next result. */
    method Readln() returns (r: ReadResult)
      modifies this
      ensures r == (if old(pos) < |results| then results[old(pos)] else Eof)
      ensures pos == old(pos) + 1 && closes == old(closes)
    {
      r := if pos < |results| then results[pos] else Eof;
      pos := pos + 1;
    }

    method Close()
      modifies this
      ensures closes == old(closes) + 1 && pos == old(pos)
    {
      closes := closes + 1;
    }
  }

  /** The epoch manager: the epochs by key, the keys in the order their
      epochs were put, and how often it was closed. */
  class EpochManager {
    var epochs: map<string, Epoch>
    var created: seq<string>
    var closes: nat

    constructor ()
      ensures epochs == map[] && created == [] && closes == 0
    {
      epochs := map[];
      created := [];
      closes := 0;
    }

    /** `HasEpoch(key)`: while the manager is consistent, a key has an
        epoch exactly when an epoch was created for it, and that epoch
        carries the key. */
    predicate HasEpoch(key: string): (b: bool)
      reads this
      ensures Consistent(LoopState(epochs, created, 0, Reading)) ==> (b <==> key in created)
      ensures Consistent(LoopState(epochs, created, 0, Reading)) && b ==> epochs[key].key == key
    {
      key in epochs
    }

    method PutEpoch(e: Epoch)
      modifies this
      ensures epochs == old(epochs)[e.key := e] && created == old(created) + [e.key]
      ensures closes == old(closes)
    {
      epochs := epochs[e.key := e];
      created := created + [e.key];
    }

    /** `epoch.Write(l)` on the epoch held under `key`. */
    method Write(key: string, l: string)
      requires key in epochs
      modifies this
      ensures epochs == old(epochs)[key := Append(old(epochs)[key], l)]
      ensures created == old(created) && closes == old(closes)
    {
      epochs := epochs[key := Append(epochs[key], l)];
    }

    method Close()
      modifies this
      ensures closes == old(closes) + 1 && epochs == old(epochs) && created == old(created)
    {
      closes := closes + 1;
    }
  }

  /** The uploader: uploading an epoch whose key is in `rejects` fails;
      every other upload succeeds and is recorded. `attempts` logs the key
      of every call, failed or not. */
  class Uploader {
    const rejects: set<string>
    var uploaded: seq<Epoch>
    var attempts: seq<string>

    constructor (rejects: set<string>)
      ensures this.rejects == rejects && uploaded == [] && attempts == []
    {
      this.rejects := rejects;
      uploaded := [];
      attempts := [];
    }

    method Upload(e: Epoch) returns (err: Option<Error>)
      modifies this
      ensures attempts == old(attempts) + [e.key]
      ensures e.key in rejects ==> err == Some(UploadError(e.key)) && uploaded == old(uploaded)
      ensures e.key !in rejects ==> err == None && uploaded == old(uploaded) + [e]
    {
      attempts := attempts + [e.key];
      if e.key in rejects {
        err := Some(UploadError(e.key));
      } else {
        err := None;
        uploaded := uploaded + [e];
      }
    }
  }

  /** A bucket width in minutes. */
  type Step = s: int | 0 < s witness 1

  /** The epochs stored under the keys `ks`, in that order. */
  function Picks(epochs: map<string, Epoch>, ks: seq<string>): (r: seq<Epoch>)
    requires forall i :: 0 <= i < |ks| ==> ks[i] in epochs
    ensures |r| == |ks|
    ensures forall i :: 0 <= i < |ks| ==> r[i] == epochs[ks[i]]
    decreases |ks|
  {
    if ks == [] then [] else Picks(epochs, ks[..|ks| - 1]) + [epochs[ks[|ks| - 1]]]
  }

  lemma PicksSnoc(epochs: map<string, Epoch>, ks: seq<string>, k: string, before: seq<Epoch>)
    requires forall i :: 0 <= i < |ks| ==> ks[i] in epochs
    requires k in epochs
    ensures before + Picks(epochs, ks + [k]) == (before + Picks(epochs, ks)) + [epochs[k]]
  {
    assert (ks + [k])[..|ks|] == ks;
  }

  lemma SnocAssoc(a: seq<string>, b: seq<string>, x: string)
    ensures (a + b) + [x] == a + (b + [x])
  {
  }

  /** The outcome of the upload loop over `epochs`, taking the uploads
      from `before` to `after` and the log of attempted keys from `tried`
      to `triedAfter`: the keys uploaded are distinct epochs that the
      uploader accepts, their epochs are appended in that order, and either
      every epoch was uploaded and nil returned, or the loop tried one
      rejected epoch after them, returned its error and tried nothing
      more. Nil is returned exactly when the uploader rejects none of the
      epochs. */
  ghost predicate Uploaded(epochs: map<string, Epoch>, rejects: set<string>, before: seq<Epoch>,
                           after: seq<Epoch>, tried: seq<string>, triedAfter: seq<string>,
                           keys: seq<string>, err: Option<Error>)
  {
    && Distinct(keys)
    && (forall i :: 0 <= i < |keys| ==> keys[i] in epochs && keys[i] !in rejects)
    && after == before + Picks(epochs, keys)
    && (err.None? ==> triedAfter == tried + keys && forall k :: k in epochs ==> k in keys)
    && (err.Some? ==> exists k ::
          && k in epochs && k !in keys && k in rejects && err == Some(UploadError(k))
          && triedAfter == tried + keys + [k])
    && (err.None? <==> forall k :: k in epochs ==> k !in rejects)
  }

  /** The state of the upload loop: `keys` were uploaded, `pending` are the
      epochs not yet visited. */
  ghost predicate UploadProgress(epochs: map<string, Epoch>, rejects: set<string>, pending: set<string>,
                                 keys: seq<string>)
  {
    && pending <= epochs.Keys
    && (forall k :: k in epochs ==> (k in pending <==> k !in keys))
    && (forall i :: 0 <= i < |keys| ==> keys[i] in epochs && keys[i] !in rejects)
    && Distinct(keys)
  }

  lemma UploadAdvance(epochs: map<string, Epoch>, rejects: set<string>, pending: set<string>,
                      keys: seq<string>, k: string)
    requires UploadProgress(epochs, rejects, pending, keys)
    requires k in pending && k !in rejects
    ensures UploadProgress(epochs, rejects, pending - {k}, keys + [k])
  {
  }

  lemma UploadRejected(epochs: map<string, Epoch>, rejects: set<string>, pending: set<string>,
                       keys: seq<string>, k: string, before: seq<Epoch>, tried: seq<string>)
    requires UploadProgress(epochs, rejects, pending, keys)
    requires k in pending && k in rejects
    ensures Uploaded(epochs, rejects, before, before + Picks(epochs, keys), tried, tried + keys + [k],
                     keys, Some(UploadError(k)))
  {
  }

  lemma UploadFinished(epochs: map<string, Epoch>, rejects: set<string>, keys: seq<string>, before: seq<Epoch>,
                       tried: seq<string>)
    requires UploadProgress(epochs, rejects, {}, keys)
    ensures Uploaded(epochs, rejects, before, before + Picks(epochs, keys), tried, tried + keys, keys, None)
  {
  }

  class Aggregator {
    const reader: LineReader
    const mngr: EpochManager
    const up: Uploader
    const logFmt: string
    const keyFmt: string
    const output: string
    const step: Step
    /** The local time zone, as seconds east of UTC. */
    const zone: int
    /** The keys whose epoch cannot be created. */
    const unwritable: set<string>
    /** The bucket key of each line: `parseEpoch` under the settings above,
        fixed when the aggregator is built. */
    const keyOf: string -> string

    /** `NewAggregator`: a fresh, empty manager and a fresh uploader around
        the given reader and settings. */
    constructor (reader: LineReader, logFmt: string, keyFmt: string, output: string, step: Step,
                 zone: int, unwritable: set<string>, rejects: set<string>)
      ensures this.reader == reader && this.logFmt == logFmt && this.keyFmt == keyFmt
      ensures this.output == output && this.step == step && this.zone == zone
      ensures this.unwritable == unwritable
      ensures fresh(mngr) && mngr.epochs == map[] && mngr.created == [] && mngr.closes == 0
      ensures fresh(up) && up.rejects == rejects && up.uploaded == [] && up.attempts == []
      ensures Valid()
    {
      this.reader := reader;
      mngr := new EpochManager();
      up := new Uploader(rejects);
      this.logFmt := logFmt;
      this.keyFmt := keyFmt;
      this.output := output;
      this.step := step;
      this.zone := zone;
      this.unwritable := unwritable;
      keyOf := l => EpochKey.ParseEpoch(logFmt, step, zone, l);
    }

    /** The aggregator's invariant: its key function is `parseEpoch`, and
        the manager holds one epoch per created key, under that key. */
    ghost predicate Valid()
      reads mngr
    {
      && (forall l :: keyOf(l) == EpochKey.ParseEpoch(logFmt, step, zone, l))
      && Consistent(LoopState(mngr.epochs, mngr.created, 0, Reading))
    }

    /** What the read loop depends on. */
    function Cfg(): Config {
      Config(keyOf, keyFmt, output, unwritable)
    }

    /** The deferred `Close`. */
    method Close()
      modifies reader, mngr
      ensures reader.closes == old(reader.closes) + 1 && reader.pos == old(reader.pos)
      ensures mngr.closes == old(mngr.closes) + 1
      ensures mngr.epochs == old(mngr.epochs) && mngr.created == old(mngr.created)
    {
      reader.Close();
      mngr.Close();
    }

    /** `Run`. `routed` is what the read loop leaves behind, computed from
        the manager's state and the reader's pending results at the call;
        `uploadedKeys` are the keys of the epochs uploaded, in upload
        order. */
    method Run() returns (err: Option<Error>, ghost routed: LoopState, ghost uploadedKeys: seq<string>)
      requires Valid()
      modifies reader, mngr, up
      ensures Valid()
      ensures routed == RouteAll(Cfg(), LoopState(old(mngr.epochs), old(mngr.created), 0, Reading), old(reader.Pending()))
      ensures !routed.phase.Reading?
      // The read loop's effect on the reader and the manager.
      ensures reader.pos == old(reader.pos) + routed.read
      ensures mngr.epochs == routed.epochs && mngr.created == routed.created
      // Closed exactly once, whatever the outcome.
      ensures reader.closes == old(reader.closes) + 1 && mngr.closes == old(mngr.closes) + 1
      // A read or creation error is returned before any upload.
      ensures routed.phase.Aborted? ==>
        && err == Some(routed.phase.err) && uploadedKeys == []
        && up.uploaded == old(up.uploaded) && up.attempts == old(up.attempts)
      // After EOF: distinct epochs are uploaded, in some order, until the first failure.
      ensures routed.phase.Drained? ==>
        Uploaded(routed.epochs, up.rejects, old(up.uploaded), up.uploaded, old(up.attempts), up.attempts,
                 uploadedKeys, err)
    {
      ghost var init := LoopState(mngr.epochs, mngr.created, 0, Reading);
      ghost var rs := reader.Pending();
      err, routed := ReadAll();
      RouteAllConsistent(Cfg(), init, rs);
      if err.Some? {
        uploadedKeys := [];
        Close();
        return;
      }
      err, uploadedKeys := UploadAll(routed);
      Close();
    }

    /** The read loop (the first `for` of `Run`): it reads until EOF, a read
        error or an epoch that cannot be created, and returns nil only at
        EOF. */
    method ReadAll() returns (err: Option<Error>, ghost routed: LoopState)
      modifies reader, mngr
      ensures routed == RouteAll(Cfg(), LoopState(old(mngr.epochs), old(mngr.created), 0, Reading), old(reader.Pending()))
      ensures !routed.phase.Reading?
      ensures reader.pos == old(reader.pos) + routed.read && reader.closes == old(reader.closes)
      ensures mngr.epochs == routed.epochs && mngr.created == routed.created && mngr.closes == old(mngr.closes)
      ensures routed.phase.Aborted? ==> err == Some(routed.phase.err)
      ensures routed.phase.Drained? ==> err == None
    {
      ghost var rs := reader.Pending();
      ghost var init := LoopState(mngr.epochs, mngr.created, 0, Reading);
      ghost var n: nat := 0;
      routed := RouteAll(Cfg(), init, rs);
      assert rs[..0] == [];

      while true
        invariant n < |rs| && reader.pos == old(reader.pos) + n
        invariant RouteAll(Cfg(), init, rs[..n]) == LoopState(mngr.epochs, mngr.created, n, Reading)
        invariant reader.closes == old(reader.closes) && mngr.closes == old(mngr.closes)
        decreases |rs| - n
      {
        var r := reader.Readln();
        assert r == rs[n];
        RouteAllSnoc(Cfg(), init, rs, n);
        RouteIgnoresCount(Cfg(), mngr.epochs, mngr.created, n, r);
        n := n + 1;
        match r
        case Eof =>
          Finished(rs, init, n);
          return None, routed;
        case Fault(m) =>
          Finished(rs, init, n);
          return Some(ReadError(m)), routed;
        case Line(l) =>
          err := Accept(l);
          if err.Some? {
            Finished(rs, init, n);
            return err, routed;
          }
      }
    }

    /** One line of the read loop: compute its key, drop it when the key is
        empty, otherwise create the key's epoch on first sight (failing when
        it cannot be created) and append the line to it. */
    method Accept(l: string) returns (err: Option<Error>)
      modifies mngr
      ensures var st := Route(Cfg(), LoopState(old(mngr.epochs), old(mngr.created), 0, Reading), Line(l));
        && mngr.epochs == st.epochs && mngr.created == st.created
        && (st.phase.Reading? ==> err == None)
        && (st.phase.Aborted? ==> err == Some(st.phase.err))
        && !st.phase.Drained?
      ensures mngr.closes == old(mngr.closes)
    {
      var key := keyOf(l);
      if key == "" {
        return None;
      }
      if !mngr.HasEpoch(key) {
        var created := NewEpoch(Cfg(), key);
        if created.Failure? {
          return Some(created.error);
        }
        mngr.PutEpoch(created.value);
      }
      mngr.Write(key, l);
      err := None;
    }

    /** The upload loop (the second `for` of `Run`), over the epochs in an
        unspecified order. */
    method UploadAll(ghost routed: LoopState) returns (err: Option<Error>, ghost uploadedKeys: seq<string>)
      requires mngr.epochs == routed.epochs
      requires forall k :: k in routed.epochs ==> routed.epochs[k].key == k
      modifies up
      ensures Uploaded(routed.epochs, up.rejects, old(up.uploaded), up.uploaded, old(up.attempts), up.attempts,
                       uploadedKeys, err)
    {
      var epochs := mngr.epochs;
      ghost var before, tried := up.uploaded, up.attempts;
      uploadedKeys := [];
      var pending := epochs.Keys;
      while pending != {}
        invariant UploadProgress(epochs, up.rejects, pending, uploadedKeys)
        invariant up.uploaded == before + Picks(epochs, uploadedKeys)
        invariant up.attempts == tried + uploadedKeys
        decreases |pending|
      {
        var k :| k in pending;
        err := up.Upload(epochs[k]);
        if err.Some? {
          UploadRejected(epochs, up.rejects, pending, uploadedKeys, k, before, tried);
          return;
        }
        PicksSnoc(epochs, uploadedKeys, k, before);
        UploadAdvance(epochs, up.rejects, pending, uploadedKeys, k);
        SnocAssoc(tried, uploadedKeys, k);
        uploadedKeys := uploadedKeys + [k];
        pending := pending - {k};
      }
      UploadFinished(epochs, up.rejects, uploadedKeys, before, tried);
      err := None;
    }

    /** After the read loop stopped at result `n - 1`, the rest of the
        results change nothing. */
    lemma Finished(rs: seq<ReadResult>, init: LoopState, n: nat)
      requires n <= |rs|
      requires !RouteAll(Cfg(), init, rs[..n]).phase.Reading?
      ensures RouteAll(Cfg(), init, rs) == RouteAll(Cfg(), init, rs[..n])
    {
      Stopped(Cfg(), init, rs, n, |rs|);
      assert rs[..|rs|] == rs;
    }
  }
}
