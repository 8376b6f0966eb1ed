/** The orchestration of the monitor, one step at a time: the capture
    thread's routing of a frame to the analysis queue and the display slot,
    one pass of the AI thread, and one iteration of the main loop, which
    dispatches at most one defect to the logger and the correction engine
    and then prepares the dashboard's status. Threads are not modelled: each
    step runs alone on the shared queues. */
module Monitor {
  import opened Text
  import PrinterControl
  import AiModel
  import CorrectionEngine

  // ---------------------------------------------------------------------
  // Queues

  /** A FIFO queue as queue.Queue keeps it; a bound of 0 or less means
      unbounded. */
  class Queue<T> {
    const maxsize: int
    var items: seq<T>

    predicate Valid()
      reads this
    {
      maxsize > 0 ==> |items| <= maxsize
    }

    predicate IsFull()
      reads this
    {
      maxsize > 0 && |items| >= maxsize
    }

    constructor (maxsize: int)
      ensures this.maxsize == maxsize && items == [] && Valid()
    {
      this.maxsize := maxsize;
      items := [];
    }

    /** put(x, block=False): appends x unless the queue is full, in which
        case nothing changes and the put fails. */
    method PutNowait(x: T) returns (ok: bool)
      requires Valid()
      modifies this
      ensures Valid()
      ensures ok <==> !old(IsFull())
      ensures items == if ok then old(items) + [x] else old(items)
    {
      if maxsize > 0 && |items| >= maxsize {
        return false;
      }
      items := items + [x];
      return true;
    }

    /** get_nowait(): the oldest item, removed; None stands for Empty. */
    method GetNowait() returns (x: Option<T>)
      requires Valid()
      modifies this
      ensures Valid()
      ensures old(items) == [] ==> x.None? && items == []
      ensures old(items) != [] ==> x == Some(old(items)[0]) && items == old(items)[1..]
    {
      if items == [] {
        return None;
      }
      x := Some(items[0]);
      items := items[1..];
    }

    method Empty() returns (empty: bool)
      ensures empty <==> items == []
    {
      empty := items == [];
    }
  }

  /** A camera image; its pixels are not looked at. */
  datatype Image = Image(pixels: seq<int>)

  /** What one capture yields: no frame, a frame the conversion rejects, or
      a converted image. */
  datatype Capture = NoFrame | Unconverted | Converted(img: Image)

  const FrameQueueSize := 10
  const WebQueueSize := 1

  /** The analysis queue after offering it a frame: dropped when full. */
  function Offered<T>(maxsize: int, items: seq<T>, x: T): (r: seq<T>)
    ensures maxsize > 0 && |items| >= maxsize ==> r == items
    ensures !(maxsize > 0 && |items| >= maxsize) ==> |r| == |items| + 1 && r[..|items|] == items && r[|items|] == x
  {
    if maxsize > 0 && |items| >= maxsize then items else items + [x]
  }

  /** The bound of a queue holds across any number of offers. */
  lemma {:induction false} OffersKeepBound<T>(maxsize: int, items: seq<T>, xs: seq<T>)
    requires maxsize > 0 && |items| <= maxsize
    ensures |Offers(maxsize, items, xs)| <= maxsize
    ensures |Offers(maxsize, items, xs)| == if |items| + |xs| <= maxsize then |items| + |xs| else maxsize
    ensures |items| + |xs| <= maxsize ==> Offers(maxsize, items, xs) == items + xs
    decreases |xs|
  {
    if xs != [] {
      var next := Offered(maxsize, items, xs[0]);
      OffersKeepBound(maxsize, next, xs[1..]);
      if |items| + |xs| <= maxsize {
        assert next == items + [xs[0]];
        assert items + [xs[0]] + xs[1..] == items + xs;
      }
    }
  }

  /** Frames offered one after another. */
  function Offers<T>(maxsize: int, items: seq<T>, xs: seq<T>): seq<T>
    decreases |xs|
  {
    if xs == [] then items else Offers(maxsize, Offered(maxsize, items, xs[0]), xs[1..])
  }

  // ---------------------------------------------------------------------
  // The capture thread

  /** One pass of the capture loop: a converted image goes, masked, to the
      analysis queue (dropped when that is full) and, unmasked, into the
      display slot after the slot is emptied; otherwise nothing changes. */
  method CaptureStep(frames: Queue<Image>, web: Queue<Image>, capture: Capture, mask: Image -> Image)
    requires frames != web && frames.Valid() && web.Valid()
    modifies frames, web
    ensures frames.Valid() && web.Valid()
    ensures capture.Converted? ==> frames.items == Offered(frames.maxsize, old(frames.items), mask(capture.img))
    ensures capture.Converted? ==> web.items == [capture.img]
    ensures !capture.Converted? ==> frames.items == old(frames.items) && web.items == old(web.items)
  {
    if capture.NoFrame? {
      return;
    }
    if capture.Unconverted? {
      return;
    }
    var img := capture.img;
    var masked := mask(img);
    var _ := frames.PutNowait(masked);
    var empty := web.Empty();
    while !empty
      invariant web.Valid() && (empty <==> web.items == [])
      invariant frames.items == Offered(frames.maxsize, old(frames.items), masked)
      decreases |web.items|
    {
      var _ := web.GetNowait();
      empty := web.Empty();
    }
    var _ := web.PutNowait(img);
  }

  /** With the monitor's analysis queue of 10: a full queue is left as it
      is, a shorter one gains the masked frame at its tail. */
  lemma RoutingSizes(items: seq<Image>, img: Image, mask: Image -> Image)
    requires |items| <= FrameQueueSize
    ensures |items| == 10 ==> Offered(FrameQueueSize, items, mask(img)) == items
    ensures |items| < 10 ==> Offered(FrameQueueSize, items, mask(img)) == items + [mask(img)]
  {
  }

  // ---------------------------------------------------------------------
  // The AI thread

  /** One pass of the AI loop: the oldest frame, when there is one, is
      analysed; only a found defect is queued for the main loop. A failed
      name lookup is the exception the loop catches: nothing is queued. */
  method AiStep(model: AiModel.LiveAIModel, frames: Queue<Image>, results: Queue<AiModel.Defect>,
                detect: Image -> AiModel.Inference)
    requires frames.Valid() && results.Valid() && results.maxsize <= 0
    modifies model, frames, results
    ensures frames.Valid() && results.Valid()
    ensures old(frames.items) == [] ==>
      frames.items == [] && results.items == old(results.items)
      && model.frameCount == old(model.frameCount) && model.currentLayer == old(model.currentLayer)
    ensures old(frames.items) != [] ==>
      var inference := detect(old(frames.items)[0]);
      var a := AiModel.Outcome(old(model.frameCount) + 1, old(model.currentLayer), model.names, inference);
      && frames.items == old(frames.items)[1..]
      && model.frameCount == old(model.frameCount) + 1 && model.currentLayer == old(model.currentLayer)
      && results.items == old(results.items) + (if a.Found? then [a.defect] else [])
  {
    var frame := frames.GetNowait();
    if frame.None? {
      return;
    }
    var result := model.AnalyzeLive(detect(frame.value));
    if result.Found? {
      var _ := results.PutNowait(result.defect);
    }
  }

  // ---------------------------------------------------------------------
  // The main loop

  /** The status sent to the dashboard with a frame. */
  datatype Metadata = Metadata(layer: int, temp: PrinterControl.Temps, defect: Option<AiModel.Defect>)

  /** The temperatures shown: all zero when the query failed. */
  function Shown(temps: Option<PrinterControl.Temps>): (r: PrinterControl.Temps)
    ensures temps.Some? ==> r == temps.value
    ensures temps.None? ==>
      Value(r.hotend) == 0.0 && Value(r.hotendTarget) == 0.0 && Value(r.bed) == 0.0 && Value(r.bedTarget) == 0.0
  {
    if temps.Some? then temps.value
    else PrinterControl.Temps(Decimal(0, 0), Decimal(0, 0), Decimal(0, 0), Decimal(0, 0))
  }

  /** What dispatching the queued defects does: the oldest one, if any, is
      corrected. */
  function Dispatch(queued: seq<AiModel.Defect>, table: map<string, seq<CorrectionEngine.Rule>>,
                    last: real, cooldown: real, now: real, l: PrinterControl.Link): CorrectionEngine.Walked
  {
    if queued == [] then CorrectionEngine.Walked(l, [], None)
    else CorrectionEngine.Correct(table, queued[0], last, cooldown, now, l)
  }

  /** The log entries of one dispatch: the defect, then its correction. */
  function Logged(queued: seq<AiModel.Defect>, w: CorrectionEngine.Walked): seq<CorrectionEngine.LogEntry> {
    if queued == [] then []
    else [CorrectionEngine.DefectLogged(queued[0])]
         + (if w.applied.Some? then [CorrectionEngine.CorrectionLogged(queued[0], w.applied.value)] else [])
  }

  /** One iteration of the main loop. `now` and `later` are the clock
      readings of the engine's cooldown check and reset. The dashboard frame
      and its metadata, when there is one, are what would be broadcast. */
  method MainStep(results: Queue<AiModel.Defect>, web: Queue<Image>, logger: CorrectionEngine.EventLog,
                  corrector: CorrectionEngine.LiveCorrectionEngine, printer: PrinterControl.LivePrinterControl,
                  currentLayer: int, now: real, later: real)
    returns (broadcast: Option<(Image, Metadata)>)
    requires results.Valid() && web.Valid()
    requires corrector.printer == printer && corrector.logger == logger
    modifies results, web, logger, printer, corrector.tuner
    ensures results.Valid() && web.Valid()
    ensures results.items == if old(results.items) == [] then [] else old(results.items)[1..]
    ensures web.items == if old(web.items) == [] then [] else old(web.items)[1..]
    ensures var o := Dispatch(old(results.items), corrector.corrections, old(corrector.tuner.lastCorrectionTime),
                              old(corrector.tuner.correctionCooldownSec), now, old(printer.State()));
      && logger.events == old(logger.events) + Logged(old(results.items), o)
      && corrector.tuner.lastCorrectionTime
         == (if o.applied.Some? then later else old(corrector.tuner.lastCorrectionTime))
      && corrector.tuner.correctionCooldownSec == old(corrector.tuner.correctionCooldownSec)
      && (old(web.items) == [] ==> printer.State() == o.link && broadcast.None?)
      && (old(web.items) != [] ==>
            var q := PrinterControl.Send(o.link, PrinterControl.GetTemp);
            && printer.State() == q.link
            && broadcast == Some((old(web.items)[0], Metadata(currentLayer, Shown(PrinterControl.TempsOf(q.reply)), None))))
  {
    var defect := results.GetNowait();
    if defect.Some? {
      logger.LogDefect(defect.value);
      corrector.ApplyLiveCorrection(defect.value, now, later);
    }
    var frame := web.GetNowait();
    if frame.None? {
      return None;
    }
    var temps := printer.GetLiveTemp();
    var shown := Shown(temps);
    var metadata := Metadata(currentLayer, shown, None);
    broadcast := Some((frame.value, metadata));
  }
}
