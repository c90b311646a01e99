/**
 The keep-alive strategy's header scan: given the values of the response's
 `Keep-Alive` headers in the order received, find the first `timeout`
 parameter with an integer value and return it as a number of seconds,
 or fall back to 30 seconds.
 */
module KeepAlive {
  import opened JavaString
  import opened JavaNumber

  /** A header value as the HTTP library reports it; `None` is a null value. */
  datatype Option<T> = None | Some(value: T)

  const DefaultSeconds: int := 30
  const TimeoutName: string := "timeout"

  /** What the strategy returns: a duration in seconds, or the exception parseLong raises. */
  datatype Outcome = Seconds(seconds: int) | NumberFormatFailure

  /** What one comma-separated parameter does to the scan. */
  datatype Verdict =
    | Skip                  // the scan moves on to the next parameter
    | Match(seconds: int)   // the scan returns this many seconds
    | Fail                  // parseLong throws and the scan ends with it

  /** The numeric test on the trimmed value of a `timeout` parameter. */
  function ValueVerdict(value: string): (v: Verdict)
    ensures v == Skip <==> !IsIntegerLiteral(value)
    ensures v == Fail <==> IsIntegerLiteral(value) && !(LongMin <= LiteralValue(value) <= LongMax)
    ensures v.Match? ==> v.seconds == LiteralValue(value)
  {
    match ParseLong(value)
    case Number(n) => Match(n)
    case OutOfRange => Fail
    case NotNumeric => Skip
  }

  /** The name/value test applied to one parameter. */
  function ParamVerdict(param: string): Verdict
  {
    var pair := Split(param, '=');
    if |pair| == 2 && EqualsIgnoreCase(Trim(pair[0]), TimeoutName) then ValueVerdict(Trim(pair[1]))
    else Skip
  }

  /** A parameter that ends the scan. */
  predicate Decides(param: string) { ParamVerdict(param) != Skip }

  predicate NoneDecide(ps: seq<string>) { forall i | 0 <= i < |ps| :: !Decides(ps[i]) }

  /** `ps[i]` is the first parameter of `ps` that ends the scan. */
  predicate FirstDeciding(ps: seq<string>, i: int)
  {
    0 <= i < |ps| && Decides(ps[i]) && forall j | 0 <= j < i :: !Decides(ps[j])
  }

  /**
   A loop with an early return: the first verdict other than Skip that
   `judge` gives along `xs`, or Skip when there is none.
   */
  function FirstVerdict<T>(judge: T -> Verdict, xs: seq<T>): Verdict
  {
    if xs == [] then Skip
    else if judge(xs[0]) != Skip then judge(xs[0])
    else FirstVerdict(judge, xs[1..])
  }

  /** The loop ends without a verdict exactly when every element is judged Skip. */
  lemma {:induction false} FirstVerdictSkip<T>(judge: T -> Verdict, xs: seq<T>)
    ensures FirstVerdict(judge, xs) == Skip <==> forall i | 0 <= i < |xs| :: judge(xs[i]) == Skip
  {
    if xs != [] {
      var tail := xs[1..];
      FirstVerdictSkip(judge, tail);
      if judge(xs[0]) == Skip {
        if forall j | 0 <= j < |tail| :: judge(tail[j]) == Skip {
          forall i | 0 <= i < |xs|
            ensures judge(xs[i]) == Skip
          {
            if i > 0 {
              assert xs[i] == tail[i - 1];
            }
          }
        } else {
          var j :| 0 <= j < |tail| && judge(tail[j]) != Skip;
          assert tail[j] == xs[j + 1];
        }
      }
    }
  }

  /** The loop returns the verdict of the first element not judged Skip. */
  lemma {:induction false} FirstVerdictAt<T>(judge: T -> Verdict, xs: seq<T>, i: int)
    requires 0 <= i < |xs| && judge(xs[i]) != Skip
    requires forall j | 0 <= j < i :: judge(xs[j]) == Skip
    ensures FirstVerdict(judge, xs) == judge(xs[i])
  {
    if i > 0 {
      var tail := xs[1..];
      assert judge(xs[0]) == Skip;
      forall j | 0 <= j < i - 1
        ensures judge(tail[j]) == Skip
      {
        assert tail[j] == xs[j + 1];
      }
      assert tail[i - 1] == xs[i];
      FirstVerdictAt(judge, tail, i - 1);
    }
  }

  /** Running the loop over two lists one after the other is running it over their concatenation. */
  lemma {:induction false} FirstVerdictAppend<T>(judge: T -> Verdict, xs: seq<T>, ys: seq<T>)
    ensures FirstVerdict(judge, xs + ys)
      == if FirstVerdict(judge, xs) != Skip then FirstVerdict(judge, xs) else FirstVerdict(judge, ys)
  {
    if xs == [] {
      assert xs + ys == ys;
    } else {
      assert (xs + ys)[0] == xs[0];
      assert (xs + ys)[1..] == xs[1..] + ys;
      FirstVerdictAppend(judge, xs[1..], ys);
    }
  }

  lemma {:induction false} FirstVerdictSingle<T>(judge: T -> Verdict, x: T)
    ensures FirstVerdict(judge, [x]) == judge(x)
  {
    assert [x][1..] == [];
  }

  /** The inner loop: the parameters of one header value, with an early return. */
  function ScanParams(ps: seq<string>): Verdict
  {
    FirstVerdict(ParamVerdict, ps)
  }

  /** The scan of a parameter list decides nothing exactly when no parameter decides, and otherwise gives the first deciding one's verdict. */
  lemma {:induction false} ScanParamsFirstDeciding(ps: seq<string>)
    ensures ScanParams(ps) == Skip <==> NoneDecide(ps)
    ensures forall i | FirstDeciding(ps, i) :: ScanParams(ps) == ParamVerdict(ps[i])
  {
    FirstVerdictSkip(ParamVerdict, ps);
    forall i | FirstDeciding(ps, i)
      ensures ScanParams(ps) == ParamVerdict(ps[i])
    {
      FirstVerdictAt(ParamVerdict, ps, i);
    }
  }

  /** The parameters of one header: none for a null value. */
  function HeaderParams(h: Option<string>): seq<string>
  {
    match h
    case None => []
    case Some(v) => Split(v, ',')
  }

  /** What the inner loop makes of one header; a null value has no parameters and gives Skip. */
  function HeaderVerdict(h: Option<string>): Verdict
  {
    ScanParams(HeaderParams(h))
  }

  /** The outer loop: the headers in order, with an early return. */
  function ScanHeaders(hs: seq<Option<string>>): Verdict
  {
    FirstVerdict(HeaderVerdict, hs)
  }

  /** Every parameter of every header, in scan order. */
  function AllParams(hs: seq<Option<string>>): seq<string>
  {
    if hs == [] then [] else HeaderParams(hs[0]) + AllParams(hs[1..])
  }

  function Conclude(v: Verdict): Outcome
  {
    match v
    case Skip => Seconds(DefaultSeconds)
    case Match(n) => Seconds(n)
    case Fail => NumberFormatFailure
  }

  /** `getKeepAliveDuration`: the verdict of the header scan, or the default when it decides nothing. */
  function KeepAliveDuration(hs: seq<Option<string>>): Outcome
  {
    Conclude(ScanHeaders(hs))
  }

  /**
   The strategy returns the verdict of the first parameter, across all
   headers in order, that ends the scan, and the 30-second default exactly
   when no parameter does.
   */
  lemma {:induction false} KeepAliveDurationFirstDeciding(hs: seq<Option<string>>)
    ensures KeepAliveDuration(hs) == Conclude(ScanParams(AllParams(hs)))
    ensures NoneDecide(AllParams(hs)) ==> KeepAliveDuration(hs) == Seconds(DefaultSeconds)
    ensures forall i | FirstDeciding(AllParams(hs), i) ::
      KeepAliveDuration(hs) == Conclude(ParamVerdict(AllParams(hs)[i]))
  {
    ScanHeadersIsFlatScan(hs);
    ScanParamsFirstDeciding(AllParams(hs));
  }

  /** Scanning a list of parameters is scanning its first part, then, if that decided nothing, the rest. */
  lemma {:induction false} ScanParamsAppend(ps: seq<string>, qs: seq<string>)
    ensures ScanParams(ps + qs) == if ScanParams(ps) != Skip then ScanParams(ps) else ScanParams(qs)
  {
    FirstVerdictAppend(ParamVerdict, ps, qs);
  }

  /** The nested loops with early return scan the flattened parameter list. */
  lemma {:induction false} ScanHeadersIsFlatScan(hs: seq<Option<string>>)
    ensures ScanHeaders(hs) == ScanParams(AllParams(hs))
  {
    if hs != [] {
      ScanHeadersIsFlatScan(hs[1..]);
      ScanParamsAppend(HeaderParams(hs[0]), AllParams(hs[1..]));
    }
  }

  lemma {:induction false} AllParamsAppend(hs: seq<Option<string>>, gs: seq<Option<string>>)
    ensures AllParams(hs + gs) == AllParams(hs) + AllParams(gs)
  {
    if hs == [] {
      assert hs + gs == gs;
    } else {
      assert (hs + gs)[0] == hs[0];
      assert (hs + gs)[1..] == hs[1..] + gs;
      AllParamsAppend(hs[1..], gs);
    }
  }
}
