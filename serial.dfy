/** `SerialPertelian`: the concrete display on a device file. Only its
    disposal guard is modelled; the display operations are those of the
    `Pertelian` it owns. */
module Serial {
  import opened Wire
  import opened Display

  /** The two handles a serial display holds: the writer and the stream
      under it. */
  datatype Resource = Writer | Stream

  /** The disposal state: the `_isDisposed` flag and the handles released
      so far, in release order. */
  datatype DisposeState = DisposeState(isDisposed: bool, released: seq<Resource>)

  /** One call of `Dispose`: the first releases the writer and then the
      stream; every later call leaves the state alone. */
  function DisposeStep(s: DisposeState): (r: DisposeState)
    ensures r.isDisposed
    ensures |s.released| <= |r.released| && r.released[..|s.released|] == s.released
  {
    if s.isDisposed then s
    else DisposeState(true, s.released + [Writer, Stream])
  }

  /** Dispose is idempotent. */
  lemma DisposeIdempotent(s: DisposeState)
    ensures DisposeStep(DisposeStep(s)) == DisposeStep(s)
  {
  }

  /** The state after `n` calls of Dispose. */
  function DisposeTimes(s: DisposeState, n: nat): DisposeState {
    if n == 0 then s else DisposeStep(DisposeTimes(s, n - 1))
  }

  /** However many times a fresh display is disposed, each handle is
      released exactly once: the writer first, then the stream. */
  lemma {:induction false} DisposeRepeatedly(n: nat)
    requires n > 0
    ensures DisposeTimes(DisposeState(false, []), n) == DisposeState(true, [Writer, Stream])
  {
    if n > 1 {
      DisposeRepeatedly(n - 1);
    }
  }

  class SerialPertelian {
    /** The display operations, on the device this object owns. */
    const display: Pertelian
    /** `_isDisposed`. */
    var isDisposed: bool
    /** The handles released so far. */
    var released: seq<Resource>

    /** Opens the device (not modelled) and initializes the display. */
    constructor (deviceFilePath: string)
      ensures fresh(display) && display.Valid()
      ensures display.log == Log(InitOps) && display.history == InitOps
      ensures !isDisposed && released == []
    {
      display := new Pertelian();
      isDisposed := false;
      released := [];
      new;
      display.Initialize();
    }

    /** `Dispose`: releases the writer and the stream on the first call
        only; it sends nothing to the device. */
    method Dispose()
      modifies this
      ensures DisposeState(isDisposed, released) == DisposeStep(old(DisposeState(isDisposed, released)))
      ensures old(isDisposed) ==> released == old(released)
      ensures !old(isDisposed) ==> released == old(released) + [Writer, Stream]
      ensures isDisposed
      ensures display.log == old(display.log)
    {
      if !isDisposed {
        isDisposed := true;
        released := released + [Writer];
        released := released + [Stream];
      }
    }
  }
}
