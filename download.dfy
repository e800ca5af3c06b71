/** `copy_file_with_progress` (download.py): copy a file in chunks of 2 MiB,
    retrying the whole copy after a failure. The file system is replaced by the
    source's bytes, the destination's bytes before the call, and one `Fate` per
    attempt saying whether and where that attempt raises. */
module Download {
  import opened Wrappers
  import opened Pystr

  /** The size of one read, `(1024 * 1024) * 2`. */
  const ChunkSize: nat := 2 * 1024 * 1024

  /** The successive non-empty reads of `data`, each of at most `ChunkSize`
      bytes; the read after the last of them returns nothing. */
  function Chunks(data: seq<byte>): seq<seq<byte>>
    decreases |data|
  {
    if data == [] then []
    else
      var n := if |data| < ChunkSize then |data| else ChunkSize;
      [data[..n]] + Chunks(data[n..])
  }

  /** Every read returns between one byte and `ChunkSize` bytes. */
  lemma {:induction false} ChunkSizes(data: seq<byte>)
    ensures forall k :: 0 <= k < |Chunks(data)| ==> 0 < |Chunks(data)[k]| <= ChunkSize
    decreases |data|
  {
    if data != [] {
      var n := if |data| < ChunkSize then |data| else ChunkSize;
      ChunkSizes(data[n..]);
    }
  }

  /** The bytes of the chunks, in order. */
  function Concat(cs: seq<seq<byte>>): seq<byte> {
    if cs == [] then [] else Concat(cs[..|cs| - 1]) + cs[|cs| - 1]
  }

  lemma ConcatSnoc(cs: seq<seq<byte>>, c: seq<byte>)
    ensures Concat(cs + [c]) == Concat(cs) + c
  {
    assert (cs + [c])[..|cs|] == cs;
  }

  lemma {:induction false} ConcatAppend(xs: seq<seq<byte>>, ys: seq<seq<byte>>)
    ensures Concat(xs + ys) == Concat(xs) + Concat(ys)
    decreases |ys|
  {
    if ys == [] {
      assert xs + ys == xs;
    } else {
      var init := ys[..|ys| - 1];
      assert xs + ys == (xs + init) + [ys[|ys| - 1]];
      ConcatSnoc(xs + init, ys[|ys| - 1]);
      ConcatAppend(xs, init);
      ConcatSnoc(init, ys[|ys| - 1]);
    }
  }

  /** The chunks put back together are the data read. */
  lemma {:induction false} ChunksConcat(data: seq<byte>)
    ensures Concat(Chunks(data)) == data
    decreases |data|
  {
    if data != [] {
      var n := if |data| < ChunkSize then |data| else ChunkSize;
      ChunksConcat(data[n..]);
      ConcatAppend([data[..n]], Chunks(data[n..]));
      assert Concat([data[..n]]) == Concat([]) + data[..n];
      assert data[..n] + data[n..] == data;
    }
  }

  /** The bytes of the first `n` chunks are a prefix of the data. */
  lemma ChunksPrefix(data: seq<byte>, n: nat)
    requires n <= |Chunks(data)|
    ensures var w := Concat(Chunks(data)[..n]);
      |w| <= |data| && w == data[..|w|]
  {
    var cs := Chunks(data);
    assert cs == cs[..n] + cs[n..];
    ConcatAppend(cs[..n], cs[n..]);
    ChunksConcat(data);
  }

  /** The chunk read at `pos` is the first chunk of what is left. */
  lemma ChunksFrom(data: seq<byte>, pos: nat)
    requires pos < |data|
    ensures var end := if |data| - pos < ChunkSize then |data| else pos + ChunkSize;
      Chunks(data[pos..]) == [data[pos..end]] + Chunks(data[end..])
  {
    var end := if |data| - pos < ChunkSize then |data| else pos + ChunkSize;
    var rest := data[pos..];
    assert rest[..end - pos] == data[pos..end];
    assert rest[end - pos..] == data[end..];
  }

  /** One more chunk read keeps the loop's bookkeeping: the chunks so far
      followed by those left are all the chunks, and their bytes are the
      source up to the read position. */
  lemma ChunkStep(src: seq<byte>, done: seq<seq<byte>>, pos: nat)
    requires pos < |src|
    requires Chunks(src) == done + Chunks(src[pos..]) && Concat(done) == src[..pos]
    ensures var end := if |src| - pos < ChunkSize then |src| else pos + ChunkSize;
      pos < end &&
      Chunks(src) == (done + [src[pos..end]]) + Chunks(src[end..]) &&
      Concat(done + [src[pos..end]]) == src[..end]
  {
    var end := if |src| - pos < ChunkSize then |src| else pos + ChunkSize;
    ChunksFrom(src, pos);
    ConcatSnoc(done, src[pos..end]);
    assert src[..end] == src[..pos] + src[pos..end];
  }

  /** The chunks read so far are the first chunks of the source. */
  lemma ChunksSoFar(src: seq<byte>, done: seq<seq<byte>>, pos: nat)
    requires pos <= |src| && Chunks(src) == done + Chunks(src[pos..])
    ensures |done| <= |Chunks(src)| && Chunks(src)[..|done|] == done
  {
    assert (done + Chunks(src[pos..]))[..|done|] == done;
  }

  /** When the read at the position is empty, every chunk has been read and
      the bytes so far are the whole source. */
  lemma ChunksAllRead(src: seq<byte>, done: seq<seq<byte>>, pos: nat)
    requires pos <= |src| && Chunks(src) == done + Chunks(src[pos..])
    requires (if |src| - pos < ChunkSize then |src| else pos + ChunkSize) == pos
    ensures Chunks(src) == done && src[..pos] == src
  {
    assert pos == |src|;
    assert src[pos..] == [];
    assert done + [] == done;
  }

  /** The copy loop (download.py:34-39): read a chunk, stop on an empty read,
      otherwise write it and add its length to the progress. `failAt` is the
      index of the read that raises, if any. On completion the destination
      holds exactly the source; after a failure it holds the chunks written
      before it. The progress always equals the bytes written. */
  method CopyChunks(src: seq<byte>, failAt: Option<nat>) returns (completed: bool, written: seq<byte>, progress: nat)
    ensures completed <==> !(failAt.Some? && failAt.value <= |Chunks(src)|)
    ensures completed ==> written == src
    ensures !completed ==> written == Concat(Chunks(src)[..failAt.value])
    ensures progress == |written|
  {
    ghost var done: seq<seq<byte>> := [];
    var pos := 0;
    var readCount := 0;
    written, progress := [], 0;
    assert src[pos..] == src;
    while true
      invariant 0 <= pos <= |src|
      invariant readCount == |done|
      invariant Chunks(src) == done + Chunks(src[pos..])
      invariant written == Concat(done) == src[..pos]
      invariant progress == pos
      invariant failAt.Some? ==> readCount <= failAt.value
      decreases |src| - pos
    {
      if failAt == Some(readCount) {
        ChunksSoFar(src, done, pos);
        return false, written, progress;
      }
      var end := if |src| - pos < ChunkSize then |src| else pos + ChunkSize;
      var buf := src[pos..end];
      if buf == [] {
        ChunksAllRead(src, done, pos);
        return true, written, progress;
      }
      ChunkStep(src, done, pos);
      written := written + buf;
      progress := progress + |buf|;
      done := done + [buf];
      pos := end;
      readCount := readCount + 1;
    }
  }

  // ------------------------------------------------------------ one attempt

  /** How one attempt ends: it completes, it raises before the destination is
      opened (creating the folder, sizing or opening the source, opening the
      destination), or the read with the given index raises. */
  datatype Fate = Completes | FailsBeforeOpen | FailsAtRead(n: nat)

  /** The fate of attempt `i`; attempts past the given ones complete. */
  function FateOf(fates: seq<Fate>, i: nat): Fate {
    if i < |fates| then fates[i] else Completes
  }

  /** Whether an attempt with that fate copies the whole file: a failing read
      past the last read of `src` is never reached. */
  predicate Succeeds(src: seq<byte>, fate: Fate) {
    match fate
    case Completes => true
    case FailsBeforeOpen => false
    case FailsAtRead(n) => n > |Chunks(src)|
  }

  /** One attempt: whether it completed, the destination afterwards (opening
      it for writing empties it), and the progress reported. */
  datatype Attempt = Attempt(completed: bool, dst: Option<seq<byte>>, progress: nat)

  function AttemptSpec(src: seq<byte>, dst: Option<seq<byte>>, fate: Fate): Attempt {
    match fate
    case FailsBeforeOpen => Attempt(false, dst, 0)
    case Completes => Attempt(true, Some(src), |src|)
    case FailsAtRead(n) =>
      if n <= |Chunks(src)| then
        var w := Concat(Chunks(src)[..n]);
        Attempt(false, Some(w), |w|)
      else Attempt(true, Some(src), |src|)
  }

  /** An attempt completes exactly when its fate lets it; a completed attempt
      leaves the destination equal to the source, and a failed one leaves it
      unchanged (raised before opening) or holding a prefix of the source. */
  lemma AttemptSpecShape(src: seq<byte>, dst: Option<seq<byte>>, fate: Fate)
    ensures var a := AttemptSpec(src, dst, fate);
      (a.completed <==> Succeeds(src, fate)) &&
      (a.completed ==> a.dst == Some(src) && a.progress == |src|) &&
      (!a.completed && fate.FailsBeforeOpen? ==> a.dst == dst && a.progress == 0) &&
      (!a.completed && !fate.FailsBeforeOpen? ==>
         a.dst.Some? && |a.dst.value| <= |src| && a.dst.value == src[..|a.dst.value|] && a.progress == |a.dst.value|)
  {
    if fate.FailsAtRead? && fate.n <= |Chunks(src)| {
      ChunksPrefix(src, fate.n);
    }
  }

  // ------------------------------------------------------------ the retries

  /** The `max_retries` argument: a number passed by the caller, or the default,
      which is the `MAX_RETRIES` environment variable as a string (or None). */
  datatype RetrySetting = Number(n: int) | Text(s: string) | Missing

  datatype Error = ValueError | TypeError | CopyFailed

  /** `int(max_retries)` (download.py:22) */
  function RetryBound(setting: RetrySetting): Result<int, Error> {
    match setting
    case Number(n) => Ok(n)
    case Text(s) => if ParseInt(s).Some? then Ok(ParseInt(s).value) else Err(ValueError)
    case Missing => Err(TypeError)
  }

  /** `retries < max_retries` (download.py:47): an int compared with a string
      or None raises TypeError. */
  function RetryAgain(retries: int, setting: RetrySetting): Result<bool, Error> {
    match setting
    case Number(n) => Ok(retries < n)
    case _ => Err(TypeError)
  }

  /** How the function ends: the copy succeeded, the loop did not run and the
      function returned without copying, or an exception left it. */
  datatype Outcome = Copied | ReturnedWithoutCopy | Raised(error: Error)

  /** Everything the function does: how it ends, the destination afterwards,
      the attempts made, the delays slept and the last attempt's progress. */
  datatype Run = Run(outcome: Outcome, dst: Option<seq<byte>>, attempts: nat, sleeps: nat, progress: nat)

  function Remaining(setting: RetrySetting, retries: nat): nat {
    if RetryBound(setting).Ok? && RetryBound(setting).value > retries then RetryBound(setting).value - retries else 0
  }

  /** The retry loop (download.py:21-52) from `retries` failed attempts on, each
      of which was followed by one delay. */
  function RunFrom(src: seq<byte>, dst: Option<seq<byte>>, setting: RetrySetting, fates: seq<Fate>, retries: nat): Run
    decreases Remaining(setting, retries)
  {
    match RetryBound(setting)
    case Err(e) => Run(Raised(e), dst, retries, retries, 0)
    case Ok(bound) =>
      if retries >= bound then Run(ReturnedWithoutCopy, dst, retries, retries, 0)
      else
        var a := AttemptSpec(src, dst, FateOf(fates, retries));
        if a.completed then Run(Copied, a.dst, retries + 1, retries, a.progress)
        else
          match RetryAgain(retries + 1, setting)
          case Err(e) => Run(Raised(e), a.dst, retries + 1, retries, a.progress)
          case Ok(again) =>
            if again then RunFrom(src, a.dst, setting, fates, retries + 1)
            else Run(Raised(CopyFailed), a.dst, retries + 1, retries, a.progress)
  }

  /** `copy_file_with_progress(src, dst, max_retries)` (download.py:10-52). */
  method CopyFileWithProgress(src: seq<byte>, dst: Option<seq<byte>>, maxRetries: RetrySetting, fates: seq<Fate>)
    returns (r: Run)
    ensures r == RunFrom(src, dst, maxRetries, fates, 0)
  {
    var retries: nat := 0;
    var sleeps: nat := 0;
    var current := dst;
    while true
      invariant sleeps == retries
      invariant RunFrom(src, dst, maxRetries, fates, 0) == RunFrom(src, current, maxRetries, fates, retries)
      decreases Remaining(maxRetries, retries)
    {
      var bound := RetryBound(maxRetries);
      if bound.Err? {
        return Run(Raised(bound.error), current, retries, sleeps, 0);
      }
      if !(retries < bound.value) {
        return Run(ReturnedWithoutCopy, current, retries, sleeps, 0);
      }
      var fate := FateOf(fates, retries);
      var completed := false;
      var progress := 0;
      if !fate.FailsBeforeOpen? {
        var written;
        completed, written, progress := CopyChunks(src, if fate.FailsAtRead? then Some(fate.n) else None);
        current := Some(written);
      }
      if completed {
        return Run(Copied, current, retries + 1, sleeps, progress);
      }
      retries := retries + 1;
      var again := RetryAgain(retries, maxRetries);
      if again.Err? {
        return Run(Raised(again.error), current, retries, sleeps, progress);
      }
      if !again.value {
        return Run(Raised(CopyFailed), current, retries, sleeps, progress);
      }
      sleeps := sleeps + 1;
    }
  }

  // ------------------------------------------------------------ properties

  /** When `int(max_retries)` raises, so does the function, before any attempt
      and without touching the destination. */
  lemma BoundErrorRaises(src: seq<byte>, dst: Option<seq<byte>>, setting: RetrySetting, fates: seq<Fate>)
    requires RetryBound(setting).Err?
    ensures RunFrom(src, dst, setting, fates, 0) == Run(Raised(RetryBound(setting).error), dst, 0, 0, 0)
    ensures setting.Missing? || (setting.Text? && ParseInt(setting.s).None?)
  {
  }

  /** When `int(max_retries)` is zero or less, no attempt runs and the function
      returns without copying and without touching the destination. */
  lemma NoAttemptWhenBoundNonPositive(src: seq<byte>, dst: Option<seq<byte>>, setting: RetrySetting, fates: seq<Fate>)
    requires RetryBound(setting).Ok? && RetryBound(setting).value <= 0
    ensures RunFrom(src, dst, setting, fates, 0) == Run(ReturnedWithoutCopy, dst, 0, 0, 0)
  {
  }

  /** With a numeric `max_retries` of `n`, from `retries` failed attempts on:
      attempts go on until one succeeds or `n` have been made; the copy ends at
      the first attempt that succeeds, with the destination equal to the source
      and the progress equal to its size; otherwise the last failure is raised
      after exactly `n` attempts; one delay separates consecutive attempts. */
  lemma {:induction false} NumberRun(src: seq<byte>, dst: Option<seq<byte>>, n: int, fates: seq<Fate>, retries: nat)
    requires retries < n
    ensures var run := RunFrom(src, dst, Number(n), fates, retries);
      retries < run.attempts <= n &&
      run.sleeps + 1 == run.attempts &&
      (forall j :: retries <= j < run.attempts - 1 ==> !Succeeds(src, FateOf(fates, j))) &&
      (run.outcome == Copied <==> Succeeds(src, FateOf(fates, run.attempts - 1))) &&
      (run.outcome != Copied ==> run.outcome == Raised(CopyFailed) && run.attempts == n) &&
      (run.outcome == Copied ==> run.dst == Some(src) && run.progress == |src|)
    decreases n - retries
  {
    var a := AttemptSpec(src, dst, FateOf(fates, retries));
    AttemptSpecShape(src, dst, FateOf(fates, retries));
    if !a.completed && retries + 1 < n {
      NumberRun(src, a.dst, n, fates, retries + 1);
    }
  }

  /** The whole call with a numeric `max_retries` of at least 1: at most that
      many attempts, and a copy exactly when one of them succeeds. */
  lemma CopyWithNumberBound(src: seq<byte>, dst: Option<seq<byte>>, n: int, fates: seq<Fate>)
    requires n >= 1
    ensures var run := RunFrom(src, dst, Number(n), fates, 0);
      1 <= run.attempts <= n &&
      (run.outcome == Copied <==> exists j :: 0 <= j < n && Succeeds(src, FateOf(fates, j))) &&
      (run.outcome == Copied ==> run.dst == Some(src))
  {
    NumberRun(src, dst, n, fates, 0);
    var run := RunFrom(src, dst, Number(n), fates, 0);
    if run.outcome != Copied {
      forall j | 0 <= j < n ensures !Succeeds(src, FateOf(fates, j)) {
        if j == n - 1 {
          assert run.attempts - 1 == j;
        }
      }
    }
  }

  // ---------------------------------------------- the default max_retries

  /** The default `max_retries` as written (download.py:8, 10): the
      environment variable itself, a string, or None when it is not set. */
  function DefaultSetting(env: Option<string>): RetrySetting {
    match env
    case Some(s) => Text(s)
    case None => Missing
  }

  /** As written, with the default `max_retries`, a failed first attempt
      raises TypeError from `retries < max_retries` (an int compared with a
      string): whatever number the variable holds, no second attempt is
      made and no delay is slept. */
  lemma DefaultSettingNeverRetries(src: seq<byte>, dst: Option<seq<byte>>, env: string, fates: seq<Fate>)
    requires ParseInt(env).Some? && ParseInt(env).value >= 1
    ensures var run := RunFrom(src, dst, DefaultSetting(Some(env)), fates, 0);
      run.attempts == 1 && run.sleeps == 0 &&
      (run.outcome == Copied <==> Succeeds(src, FateOf(fates, 0))) &&
      (run.outcome != Copied ==> run.outcome == Raised(TypeError))
  {
    AttemptSpecShape(src, dst, FateOf(fates, 0));
  }

  /** The input that shows it: `MAX_RETRIES=3` and a first attempt that fails
      before opening the destination. The call raises TypeError after one
      attempt, where three attempts were meant (see
      `IntendedSettingCopiesOnRetry`: the second would copy). */
  lemma DefaultSettingCounterexample()
    ensures RunFrom([1, 2], None, DefaultSetting(Some("3")), [FailsBeforeOpen], 0) == Run(Raised(TypeError), None, 1, 0, 0)
  {
    ParseIntThree();
    assert RetryBound(Text("3")) == Ok(3);
    assert AttemptSpec([1, 2], None, FateOf([FailsBeforeOpen], 0)) == Attempt(false, None, 0);
    assert RetryAgain(1, Text("3")) == Err(TypeError);
  }

  lemma ParseIntThree()
    ensures ParseInt("3") == Some(3)
  {
    assert Strip("3") == "3" by { StripOfTrimmed("3"); }
    assert DigitsValue("3") == 3;
  }

  /** The default as evidently intended (the docstring calls `max_retries` an
      int): the variable read as an int once, or no setting when it is not an
      int. */
  function IntendedSetting(env: Option<string>): Option<RetrySetting> {
    if env.Some? && ParseInt(env.value).Some? then Some(Number(ParseInt(env.value).value)) else None
  }

  /** With the intended default, the variable's number bounds the attempts,
      and a failed attempt is retried while attempts remain. */
  lemma IntendedSettingRetries(src: seq<byte>, dst: Option<seq<byte>>, env: string, fates: seq<Fate>)
    requires ParseInt(env).Some? && ParseInt(env).value >= 1
    ensures IntendedSetting(Some(env)).Some?
    ensures var n := ParseInt(env).value;
      var run := RunFrom(src, dst, IntendedSetting(Some(env)).value, fates, 0);
      1 <= run.attempts <= n && run.sleeps + 1 == run.attempts &&
      (run.outcome == Copied <==> exists j :: 0 <= j < n && Succeeds(src, FateOf(fates, j))) &&
      (run.outcome == Copied ==> run.dst == Some(src))
  {
    var n := ParseInt(env).value;
    CopyWithNumberBound(src, dst, n, fates);
    NumberRun(src, dst, n, fates, 0);
  }

  /** The same input with the intended default: the failed first attempt is
      retried after one delay, and the second attempt copies the file. */
  lemma IntendedSettingCopiesOnRetry()
    ensures IntendedSetting(Some("3")) == Some(Number(3))
    ensures RunFrom([1, 2], None, IntendedSetting(Some("3")).value, [FailsBeforeOpen], 0) == Run(Copied, Some([1, 2]), 2, 1, 2)
  {
    ParseIntThree();
    assert AttemptSpec([1, 2], None, FateOf([FailsBeforeOpen], 0)) == Attempt(false, None, 0);
    assert RetryAgain(1, Number(3)) == Ok(true);
    assert FateOf([FailsBeforeOpen], 1) == Completes;
    assert RunFrom([1, 2], None, Number(3), [FailsBeforeOpen], 1) == Run(Copied, Some([1, 2]), 2, 1, 2);
  }
}
