/**
 What the keep-alive scan promises: the default with no usable parameter,
 exactly N for a single `timeout=N` however it is cased and padded, first
 deciding parameter wins, and null headers, malformed parameters, other
 parameter names and non-numeric values are passed over.
 */
module KeepAliveProperties {
  import opened Sequences
  import opened JavaString
  import opened JavaNumber
  import opened KeepAlive

  /** With no Keep-Alive header at all the strategy gives the 30-second default. */
  lemma {:induction false} NoHeadersGiveDefault()
    ensures KeepAliveDuration([]) == Seconds(30)
  {
  }

  /** A response whose Keep-Alive headers are all null also gets the default. */
  lemma {:induction false} NullHeadersGiveDefault(hs: seq<Option<string>>)
    requires forall i | 0 <= i < |hs| :: hs[i] == None
    ensures KeepAliveDuration(hs) == Seconds(DefaultSeconds)
  {
    if hs != [] {
      NullHeadersGiveDefault(hs[1..]);
    }
  }

  /** Two header lists whose flattened parameters scan alike get the same duration. */
  lemma {:induction false} SameScanSameDuration(hs: seq<Option<string>>, gs: seq<Option<string>>)
    requires ScanParams(AllParams(hs)) == ScanParams(AllParams(gs))
    ensures KeepAliveDuration(hs) == KeepAliveDuration(gs)
  {
    ScanHeadersIsFlatScan(hs);
    ScanHeadersIsFlatScan(gs);
  }

  /** The parameters of `hs + [h] + more` are those of `hs`, then of `h`, then of `more`. */
  lemma {:induction false} AllParamsAround(hs: seq<Option<string>>, h: Option<string>, more: seq<Option<string>>)
    ensures AllParams(hs + [h] + more) == AllParams(hs) + (HeaderParams(h) + AllParams(more))
  {
    AllParamsAppend(hs, [h]);
    AllParamsAppend(hs + [h], more);
    AllParamsSingle(h);
    AppendAssoc(AllParams(hs), HeaderParams(h), AllParams(more));
  }

  lemma {:induction false} AllParamsSingle(h: Option<string>)
    ensures AllParams([h]) == HeaderParams(h)
  {
    assert [h][1..] == [];
    assert HeaderParams(h) + [] == HeaderParams(h);
  }

  /** A parameter whose `=`-split gives the two pieces `x` and `y` and whose name is `timeout` is judged on its value alone. */
  lemma {:induction false} TimeoutParamVerdict(x: string, y: string, k: nat)
    requires '=' !in x && '=' !in y && y != []
    requires EqualsIgnoreCase(Trim(x), TimeoutName)
    ensures ParamVerdict(x + "=" + y + seq(k, _ => '=')) == ValueVerdict(Trim(y))
  {
    SplitTwoPieces(x, y, '=', k);
  }

  /**
   Conversely, a parameter that ends the scan is a name that trims to
   `timeout` in some letter case, one `=`, a non-empty value, and possibly
   more `=` signs; and the value alone gives its verdict.
   */
  lemma {:induction false} DecidingParamShape(p: string)
    requires Decides(p)
    ensures var pair := Split(p, '=');
      && |pair| == 2
      && '=' !in pair[0] && '=' !in pair[1] && pair[1] != []
      && |p| >= |pair[0]| + 1 + |pair[1]|
      && p == pair[0] + "=" + pair[1] + seq(|p| - |pair[0]| - 1 - |pair[1]|, _ => '=')
      && EqualsIgnoreCase(Trim(pair[0]), TimeoutName)
      && ValueVerdict(Trim(pair[1])) != Skip
      && ParamVerdict(p) == ValueVerdict(Trim(pair[1]))
  {
    SplitTwoPiecesShape(p, '=');
    SplitPieces(p, '=');
  }

  /** A parameter without `=` (a bare name such as `max`) decides nothing. */
  lemma {:induction false} ParamWithoutEqualsPassedOver(p: string)
    requires '=' !in p
    ensures ParamVerdict(p) == Skip
  {
  }

  /** `name=` with an empty value splits into one piece and decides nothing, even for `timeout=`. */
  lemma {:induction false} ParamWithEmptyValuePassedOver(x: string)
    requires '=' !in x
    ensures ParamVerdict(x + "=") == Skip
  {
    SplitTrailingSeparator(x, '=');
  }

  /** A parameter with a second `=` followed by more text (such as `timeout=1=2`) splits into three or more pieces and decides nothing. */
  lemma {:induction false} ParamWithThreePiecesPassedOver(x: string, y: string, z: string)
    requires z != [] && z[|z| - 1] != '='
    ensures ParamVerdict(x + "=" + y + "=" + z) == Skip
  {
    var s := x + "=" + y + "=" + z;
    assert s[|x|] == '=';
    PiecesAppend(x + "=" + y, z, '=');
    PiecesAppend(x, y, '=');
    SplitKeepsAllPieces(s, '=');
  }

  /** A name that matches `timeout` ignoring case has seven characters, none of them padding, a comma or `=`. */
  lemma {:induction false} TimeoutNameCharacters(name: string)
    requires EqualsIgnoreCase(name, TimeoutName)
    ensures |name| == 7
    ensures forall i | 0 <= i < |name| :: !IsTrimmed(name[i]) && name[i] != ',' && name[i] != '='
  {
    forall i | 0 <= i < |name|
      ensures !IsTrimmed(name[i]) && name[i] != ',' && name[i] != '='
    {
      assert FoldCase(name[i]) == FoldCase(TimeoutName[i]);
    }
  }

  /**
   The names the strategy takes for `timeout` are exactly the seven-letter
   names whose every letter is that of `timeout` in either case, or, for the
   `i`, the dotted capital I or the dotless small i.
   */
  lemma {:induction false} TimeoutNameCases(name: string)
    ensures EqualsIgnoreCase(name, TimeoutName) <==> |name| == 7 && forall i | 0 <= i < 7 :: CaseVariant(name[i], TimeoutName[i])
  {
    assert IsLowerWord(TimeoutName);
    EqualsIgnoreCaseLowerWord(name, TimeoutName);
  }

  /** Capitals anywhere in the name are accepted. */
  lemma {:induction false} CapitalisedTimeoutNames()
    ensures EqualsIgnoreCase("TIMEOUT", TimeoutName)
    ensures EqualsIgnoreCase("Timeout", TimeoutName)
    ensures !EqualsIgnoreCase("timeouts", TimeoutName)
  {
    TimeoutNameCases("TIMEOUT");
    TimeoutNameCases("Timeout");
  }

  lemma {:induction false} DecimalStringCharacters(n: int)
    ensures DecimalString(n) != []
    ensures forall i | 0 <= i < |DecimalString(n)| :: !IsTrimmed(DecimalString(n)[i]) && DecimalString(n)[i] !in ",="
  {
    var d := NatDigits(if n < 0 then -n else n);
    assert forall i | 0 <= i < |d| :: IsDigit(d[i]);
  }

  /** A header value without a comma is a single parameter, and the strategy gives that parameter's verdict. */
  lemma {:induction false} SingleParamHeader(p: string)
    requires ',' !in p
    ensures KeepAliveDuration([Some(p)]) == Conclude(ParamVerdict(p))
  {
    SplitPieces(p, ',');
    AllParamsSingle(Some(p));
    ScanHeadersIsFlatScan([Some(p)]);
    FirstVerdictSingle(ParamVerdict, p);
  }

  /**
   `timeout=N`, in any letter case and with any padding around name and
   value, is matched with N when N is a long, and makes parseLong throw when
   it is not.
   */
  lemma {:induction false} PaddedTimeoutParam(name: string, n: int, pre1: string, post1: string, pre2: string, post2: string)
    requires EqualsIgnoreCase(name, TimeoutName)
    requires AllTrimmed(pre1) && AllTrimmed(post1) && AllTrimmed(pre2) && AllTrimmed(post2)
    ensures var x, y := pre1 + name + post1, pre2 + DecimalString(n) + post2;
      && ',' !in x + "=" + y
      && ParamVerdict(x + "=" + y) == if LongMin <= n <= LongMax then Match(n) else Fail
  {
    var digits := DecimalString(n);
    var x, y := pre1 + name + post1, pre2 + digits + post2;
    TimeoutNameCharacters(name);
    DecimalStringCharacters(n);
    assert '=' !in x && ',' !in x;
    assert '=' !in y && ',' !in y && y != [];
    TrimPadded(pre1, name, post1);
    TrimPadded(pre2, digits, post2);
    ParseLongOfDecimalString(n);
    NoTrailing(x + "=" + y, '=');
    TimeoutParamVerdict(x, y, 0);
  }

  /**
   A single header holding only `timeout=N` gives exactly N seconds for every
   long N, every letter case of `timeout` and any padding around the name and
   the value; a number outside the long range ends in the parse failure.
   */
  lemma {:induction false} SingleTimeoutHeader(name: string, n: int, pre1: string, post1: string, pre2: string, post2: string)
    requires EqualsIgnoreCase(name, TimeoutName)
    requires AllTrimmed(pre1) && AllTrimmed(post1) && AllTrimmed(pre2) && AllTrimmed(post2)
    ensures KeepAliveDuration([Some(pre1 + name + post1 + "=" + pre2 + DecimalString(n) + post2)])
      == if LongMin <= n <= LongMax then Seconds(n) else NumberFormatFailure
  {
    var x, y := pre1 + name + post1, pre2 + DecimalString(n) + post2;
    PaddedTimeoutParam(name, n, pre1, post1, pre2, post2);
    AppendAssoc(x + "=", pre2, DecimalString(n));
    AppendAssoc(x + "=", pre2 + DecimalString(n), post2);
    SingleParamHeader(x + "=" + y);
  }

  /** A negative timeout is not rejected: `timeout=-5` comes back as -5 seconds. */
  lemma {:induction false} NegativeTimeoutReturned(n: int)
    requires LongMin <= n < 0
    ensures KeepAliveDuration([Some(TimeoutName + "=" + DecimalString(n))]) == Seconds(n)
  {
    PlainTimeoutHeader(n);
  }

  /** `timeout=N` for N outside the long range (such as 9223372036854775808) ends the strategy with the parse failure instead of a duration. */
  lemma {:induction false} OutOfRangeTimeoutFails(n: int)
    requires n < LongMin || LongMax < n
    ensures KeepAliveDuration([Some(TimeoutName + "=" + DecimalString(n))]) == NumberFormatFailure
  {
    PlainTimeoutHeader(n);
  }

  lemma {:induction false} PlainTimeoutHeader(n: int)
    ensures KeepAliveDuration([Some(TimeoutName + "=" + DecimalString(n))])
      == if LongMin <= n <= LongMax then Seconds(n) else NumberFormatFailure
  {
    TimeoutNameCharacters(TimeoutName);
    assert TimeoutName + "=" + DecimalString(n) == [] + TimeoutName + [] + "=" + [] + DecimalString(n) + [];
    SingleTimeoutHeader(TimeoutName, n, [], [], [], []);
  }

  /** Headers received after one that decides the scan never change the result. */
  lemma {:induction false} AppendHeadersKeepsResult(hs: seq<Option<string>>, more: seq<Option<string>>)
    requires !NoneDecide(AllParams(hs))
    ensures KeepAliveDuration(hs + more) == KeepAliveDuration(hs)
  {
    AllParamsAppend(hs, more);
    ScanParamsFirstDeciding(AllParams(hs));
    ScanParamsAppend(AllParams(hs), AllParams(more));
    SameScanSameDuration(hs + more, hs);
  }

  /** The empty header value has the one parameter "", which decides nothing. */
  lemma {:induction false} EmptyValueDecidesNothing()
    ensures NoneDecide(Split([], ','))
  {
    assert Split([], ',') == [[]];
    assert Split([], '=') == [[]];
  }

  /**
   Parameters appended after a deciding one in the same header value never
   change the result, whatever headers come before or after.
   */
  lemma {:induction false} AppendParamsKeepsResult(hs: seq<Option<string>>, v: string, w: string, more: seq<Option<string>>)
    requires !NoneDecide(Split(v, ','))
    ensures KeepAliveDuration(hs + [Some(v + "," + w)] + more) == KeepAliveDuration(hs + [Some(v)])
  {
    EmptyValueDecidesNothing();
    var first := Split(v, ',');
    var longer := Split(v + "," + w, ',');
    SplitExtend(v, w, ',');
    PrefixThenRest(first, longer);
    var tail := longer[|first|..];
    var before, after := AllParams(hs), AllParams(more);
    AllParamsAround(hs, Some(v + "," + w), more);
    AllParamsAppend(hs, [Some(v)]);
    AllParamsSingle(Some(v));
    AppendAssoc(first, tail, after);
    ScanParamsFirstDeciding(first);
    ScanParamsAppend(first, tail + after);
    ScanParamsAppend(before, longer + after);
    ScanParamsAppend(before, first);
    SameScanSameDuration(hs + [Some(v + "," + w)] + more, hs + [Some(v)]);
  }

  /** Parameters that decide nothing are passed over: the scan continues with what follows them. */
  lemma {:induction false} PassedOverParams(ps: seq<string>, mid: seq<string>, qs: seq<string>)
    requires NoneDecide(mid)
    ensures ScanParams(ps + mid + qs) == ScanParams(ps + qs)
  {
    ScanParamsFirstDeciding(mid);
    ScanParamsAppend(mid, qs);
    AppendAssoc(ps, mid, qs);
    ScanParamsAppend(ps, mid + qs);
    ScanParamsAppend(ps, qs);
  }

  /**
   A header none of whose parameters decides (malformed pairs, other names,
   non-numeric timeouts) can be removed without changing the result.
   */
  lemma {:induction false} HeaderThatDecidesNothingIgnored(hs: seq<Option<string>>, h: Option<string>, more: seq<Option<string>>)
    requires NoneDecide(HeaderParams(h))
    ensures KeepAliveDuration(hs + [h] + more) == KeepAliveDuration(hs + more)
  {
    var before, after := AllParams(hs), AllParams(more);
    AllParamsAround(hs, h, more);
    AllParamsAppend(hs, more);
    AppendAssoc(before, HeaderParams(h), after);
    PassedOverParams(before, HeaderParams(h), after);
    SameScanSameDuration(hs + [h] + more, hs + more);
  }

  /** A header whose value is null is skipped without affecting the result. */
  lemma {:induction false} NullHeaderIgnored(hs: seq<Option<string>>, more: seq<Option<string>>)
    ensures KeepAliveDuration(hs + [None] + more) == KeepAliveDuration(hs + more)
  {
    HeaderThatDecidesNothingIgnored(hs, None, more);
  }

  /** A parameter whose `=`-split does not give two pieces, or whose name is not `timeout`, is passed over. */
  lemma {:induction false} NonTimeoutParamPassedOver(ps: seq<string>, p: string, qs: seq<string>)
    requires var pair := Split(p, '='); |pair| != 2 || !EqualsIgnoreCase(Trim(pair[0]), TimeoutName)
    ensures ScanParams(ps + [p] + qs) == ScanParams(ps + qs)
  {
    assert NoneDecide([p]);
    PassedOverParams(ps, [p], qs);
  }

  /**
   A `timeout` parameter whose value holds no decimal digit (such as
   `timeout=never`) fails the creatable-number test in every form that test
   knows, and is passed over.
   */
  lemma {:induction false} NonNumericTimeoutPassedOver(ps: seq<string>, x: string, y: string, qs: seq<string>)
    requires '=' !in x && '=' !in y
    requires EqualsIgnoreCase(Trim(x), TimeoutName)
    requires !HasDigit(Trim(y))
    ensures ScanParams(ps + [x + "=" + y] + qs) == ScanParams(ps + qs)
  {
    var p := x + "=" + y;
    LiteralHasDigit(Trim(y));
    assert ValueVerdict(Trim(y)) == Skip;
    if y != [] {
      NoTrailing(p, '=');
      TimeoutParamVerdict(x, y, 0);
      assert ParamVerdict(p) == ValueVerdict(Trim(y));
    } else {
      AppendEmpty(x + "=");
      ParamWithEmptyValuePassedOver(x);
    }
    assert ParamVerdict(p) == Skip;
    assert NoneDecide([p]);
    PassedOverParams(ps, [p], qs);
  }

  /** A header value `a,b` of two comma-free parameters, the second non-empty, has exactly those two parameters. */
  lemma {:induction false} TwoParamHeader(a: string, b: string)
    requires ',' !in a && ',' !in b && b != []
    ensures HeaderParams(Some(a + "," + b)) == [a, b]
  {
    NoTrailing(a + "," + b, ',');
    SplitTwoPieces(a, b, ',', 0);
  }

  /**
   A header `other,p` whose first parameter decides nothing and whose second
   does gives the second one's verdict, whatever headers follow.
   */
  lemma {:induction false} PassedOverThenMatch(other: string, p: string, later: seq<Option<string>>)
    requires ',' !in other && ',' !in p && p != []
    requires !Decides(other) && Decides(p)
    ensures KeepAliveDuration([Some(other + "," + p)] + later) == Conclude(ParamVerdict(p))
  {
    var v := other + "," + p;
    TwoParamHeader(other, p);
    FirstVerdictAt(ParamVerdict, [other, p], 1);
    assert HeaderVerdict(Some(v)) == ParamVerdict(p);
    FirstVerdictAppend(HeaderVerdict, [Some(v)], later);
    FirstVerdictSingle(HeaderVerdict, Some(v));
  }
}
