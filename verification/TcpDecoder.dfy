/** The incremental decoder of `framing.rs`, proved against `Framing.Drain`. */
module TcpDecoding {
  import opened Wrappers
  import opened Bytes
  import F = Framing

  /** Whether the decoding loop goes round again. */
  datatype Progress = Continue | Stop(error: Option<F.FrameError>)

  class TcpDecoder {
    var framing: F.TcpFraming
    const maxFrameLen: nat
    var buf: seq<Byte>

    constructor (framing: F.TcpFraming, maxFrameLen: nat)
      ensures this.framing == framing && buf == []
      ensures this.maxFrameLen == if maxFrameLen == 0 then 1 else maxFrameLen
    {
      this.framing := framing;
      this.maxFrameLen := if maxFrameLen >= 1 then maxFrameLen else 1;
      this.buf := [];
    }

    /** The decoder after decoding `d`: an error discards the bytes it complains about. */
    ghost predicate Holds(d: F.Drained)
      reads this
    {
      framing == d.framing && buf == if d.error.Some? then [] else d.rest
    }

    /** Append `chunk` and decode; `output` is `out` extended by the complete frames. */
    method Push(chunk: seq<Byte>, out: seq<F.Frame>) returns (output: seq<F.Frame>, error: Option<F.FrameError>)
      modifies this
      ensures var d := F.Drain(old(framing), maxFrameLen, old(buf) + chunk);
              Holds(d) && error == d.error && output == out + d.frames
    {
      buf := buf + chunk;
      output, error := Drain(out);
    }

    /** Give up whatever is left as one last frame. */
    method Flush(out: seq<F.Frame>) returns (output: seq<F.Frame>)
      modifies this
      ensures buf == [] && framing == old(framing)
      ensures output == out + if old(buf) == [] then [] else [old(buf)]
    {
      output := out;
      if buf != [] {
        output, buf := output + [buf], [];
      }
    }

    method Drain(out: seq<F.Frame>) returns (output: seq<F.Frame>, error: Option<F.FrameError>)
      modifies this
      ensures var d := F.Drain(old(framing), maxFrameLen, old(buf));
              Holds(d) && error == d.error && output == out + d.frames
    {
      hide F.Drain, F.StepOf, F.Drained.After;
      ghost var whole := F.Drain(framing, maxFrameLen, buf);
      ghost var done: seq<F.Frame> := [];
      output := out;
      F.AfterNothing(whole);
      while true
        invariant F.Drain(framing, maxFrameLen, buf).After(done) == whole
        invariant output == out + done
        decreases |buf|, framing == F.Auto
      {
        F.DrainUnfolds(framing, maxFrameLen, buf);
        ghost var step, held := F.StepOf(framing, maxFrameLen, buf), buf;
        var progress: Progress;
        output, progress := Round(output);
        if progress.Stop? {
          F.StopAfter(framing, held, progress.error, done);
          return output, progress.error;
        }
        if step.Emit? {
          F.AfterAfter(F.Drain(framing, maxFrameLen, buf), done, [step.frame]);
          done := done + [step.frame];
        }
      }
    }

    /** One round of the decoding loop. */
    method Round(out: seq<F.Frame>) returns (output: seq<F.Frame>, progress: Progress)
      modifies this
      ensures Took(F.StepOf(old(framing), maxFrameLen, old(buf)), out, output, progress)
    {
      hide F.OctetStep, F.LineStep, F.Detect;
      output := out;
      var mode: F.Mode;
      match framing {
        case OctetCounting => mode := F.Octet;
        case NonTransparent => mode := F.Lines;
        case Auto =>
          match F.Detect(buf) {
            case None => return output, Stop(None);
            case Some(m) => mode := m;
          }
      }
      match mode {
        case Octet => output, progress := TakeCounted(output);
        case Lines => output, progress := TakeLine(output);
      }
    }

    /** The `<digits> SP` arm of the loop. */
    method TakeCounted(out: seq<F.Frame>) returns (output: seq<F.Frame>, progress: Progress)
      modifies this
      ensures Took(F.OctetStep(old(framing) == F.Auto, maxFrameLen, old(buf)), out, output, progress)
    {
      output := out;
      var space := IndexOf(buf, SP);
      if space == |buf| {
        return output, Stop(None);
      }
      var parsed := ParseUsize(buf[..space]);
      if parsed.None? {
        if framing == F.Auto {
          framing := F.NonTransparent;
          return output, Continue;
        }
        return output, Stop(None);
      }
      var len := parsed.value;
      if len > maxFrameLen {
        buf := [];
        return output, Stop(Some(F.FrameTooLarge(len, maxFrameLen)));
      }
      var start := space + 1;
      var end := start + len;
      if end > USIZE_MAX {
        buf := [];
        return output, Stop(Some(F.FrameTooLarge(len, maxFrameLen)));
      }
      if |buf| < end {
        return output, Stop(None);
      }
      var frame := buf[start..end];
      buf := buf[end..];
      return output + [frame], Continue;
    }

    /** The LF arm of the loop. */
    method TakeLine(out: seq<F.Frame>) returns (output: seq<F.Frame>, progress: Progress)
      modifies this
      ensures Took(F.LineStep(maxFrameLen, old(buf)), out, output, progress)
    {
      output := out;
      var lf := IndexOf(buf, LF);
      if lf < |buf| {
        var frame := buf[..lf];
        if frame != [] && frame[|frame| - 1] == CR {
          frame := frame[..|frame| - 1];
        }
        buf := buf[lf + 1..];
        return output + [frame], Continue;
      }
      if |buf| >= maxFrameLen {
        var len := |buf|;
        buf := [];
        return output, Stop(Some(F.FrameTooLarge(len, maxFrameLen)));
      }
      return output, Stop(None);
    }

    /** The effect one step has on the decoder. */
    twostate predicate Took(step: F.Step, out: seq<F.Frame>, output: seq<F.Frame>, progress: Progress)
      reads this
    {
      match step
      case Wait => framing == old(framing) && buf == old(buf) && output == out && progress == Stop(None)
      case Reject(e) => framing == old(framing) && buf == [] && output == out && progress == Stop(Some(e))
      case FallBack => framing == F.NonTransparent && buf == old(buf) && output == out && progress == Continue
      case Emit(frame, used) =>
        && used <= |old(buf)|
        && framing == old(framing) && buf == old(buf)[used..] && output == out + [frame] && progress == Continue
    }
  }
}
