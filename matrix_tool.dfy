/**
 * MatrixTool: the front end of the MATLAB-style matrix literal. match2 cuts
 * a row into number tokens and the text between them, `a:b` and `a:s:b`
 * tokens are expanded by InterpolationCalculation, and the bracket, `;`
 * and `,` structure of the literal is resolved into rows.
 *
 * The regular expression that recognises one number and the numeral parser
 * (`new Complex(text)`) are parameters: a Matcher returns the first match
 * in a string, a parser maps a token to its value.
 */
module MatrixTool {
  import opened Wrappers
  import opened ComplexNum
  import opened ComplexOrder
  import opened Text
  import Grid
  import Polyfill

  // ---------------------------------------------------------------------
  // match2
  // ---------------------------------------------------------------------

  /** One piece of match2's output: [true, match] or [false, text between matches]. */
  datatype Piece = Piece(matched: bool, text: string)

  /** What `String.prototype.match` with a non-global regular expression reports: `index` and `match[0]`. */
  datatype Found = Found(index: nat, text: string)

  type Matcher = string -> Option<Found>

  /** A match lies inside the searched string and is the text found there. */
  ghost predicate Sound(find: Matcher) {
    forall s :: find(s).Some? ==>
      find(s).value.index + |find(s).value.text| <= |s|
      && s[find(s).value.index..find(s).value.index + |find(s).value.text|] == find(s).value.text
  }

  /** match2 gives up after this many matches. */
  const MATCH_LIMIT: nat := 1000

  /** text.substr(0, n) */
  function Prefix(s: string, n: nat): string {
    if n <= |s| then s[..n] else s
  }

  /** text.substr(n) */
  function Suffix(s: string, n: nat): string {
    if n <= |s| then s[n..] else ""
  }

  /** The pieces found, and the text left unsearched when the match limit is reached. */
  datatype Segmented = Segmented(pieces: seq<Piece>, rest: string)

  /** The pieces one match adds: the text before it, when there is any, then the match. */
  function Head(target: string, m: Found): (h: seq<Piece>)
    ensures 1 <= |h| <= 2 && h[|h| - 1] == Piece(true, m.text)
  {
    (if m.index > 0 then [Piece(false, Prefix(target, m.index))] else []) + [Piece(true, m.text)]
  }

  /** The string searched after a match: what follows the match. */
  function After(target: string, m: Found): string {
    Suffix(target, m.index + |m.text|)
  }

  /** The piece after the last match: the text left, when there is any. */
  function Rest(target: string): (r: seq<Piece>)
    ensures |r| <= 1 && (|r| == 1 <==> |target| > 0)
  {
    if |target| > 0 then [Piece(false, target)] else []
  }

  /** match2 with `fuel` matches still allowed. */
  function Segments(target: string, find: Matcher, fuel: nat): Segmented
    decreases fuel
  {
    if fuel == 0 then Segmented([], target)
    else
      var m := find(target);
      if m.None? then Segmented(Rest(target), "")
      else
        var tail := Segments(After(target, m.value), find, fuel - 1);
        Segmented(Head(target, m.value) + tail.pieces, tail.rest)
  }

  /** match2(text, regexp) */
  method Match2(text: string, find: Matcher) returns (output: seq<Piece>)
    ensures output == Segments(text, find, MATCH_LIMIT).pieces
  {
    output := Match2Loop(text, find, MATCH_LIMIT);
  }

  /** match2's loop with at most `limit` matches. */
  method Match2Loop(text: string, find: Matcher, limit: nat) returns (output: seq<Piece>)
    ensures output == Segments(text, find, limit).pieces
  {
    output := [];
    var search_target := text;
    var x := 0;
    ghost var total := Segments(text, find, limit).pieces;
    while x < limit
      invariant 0 <= x <= limit
      invariant output + Segments(search_target, find, limit - x).pieces == total
      decreases limit - x
    {
      var stop;
      output, search_target, stop := Match2Turn(output, search_target, find, limit - x, total);
      if stop {
        return;
      }
      x := x + 1;
    }
    assert output + [] == output;
  }

  /**
   * One turn of match2's loop: no match pushes the text left and stops;
   * a match pushes the text before it and the match, and the search goes
   * on after it.
   */
  method Match2Turn(output: seq<Piece>, search_target: string, find: Matcher, ghost fuel: nat, ghost total: seq<Piece>)
    returns (output': seq<Piece>, search_target': string, stop: bool)
    requires fuel > 0 && output + Segments(search_target, find, fuel).pieces == total
    ensures stop <==> find(search_target).None?
    ensures stop ==> output' == total
    ensures !stop ==> output' + Segments(search_target', find, fuel - 1).pieces == total
  {
    var m := find(search_target);
    if m.None? {
      SegmentsEnd(output, search_target, find, fuel, total);
      output' := PushRest(output, search_target);
      return output', search_target, true;
    }
    SegmentsStep(output, search_target, find, fuel, total);
    output' := PushMatch(output, search_target, m.value);
    search_target' := Suffix(search_target, m.value.index + |m.value.text|);
    stop := false;
  }

  /** The push after the last match: the text left, when there is any. */
  method PushRest(output: seq<Piece>, target: string) returns (output': seq<Piece>)
    ensures output' == output + Rest(target)
  {
    output' := output;
    if |target| > 0 {
      output' := output' + [Piece(false, target)];
    }
  }

  /** The pushes of one turn of match2's loop: the text before the match, when there is any, then the match. */
  method PushMatch(output: seq<Piece>, target: string, m: Found) returns (output': seq<Piece>)
    ensures output' == output + Head(target, m)
  {
    output' := output;
    if m.index > 0 {
      output' := output' + [Piece(false, Prefix(target, m.index))];
    }
    output' := output' + [Piece(true, m.text)];
  }

  /** When no further match is found, the text left completes match2's output. */
  lemma SegmentsEnd(done: seq<Piece>, target: string, find: Matcher, fuel: nat, total: seq<Piece>)
    requires fuel > 0 && find(target).None?
    requires done + Segments(target, find, fuel).pieces == total
    ensures done + Rest(target) == total
  {
  }

  /** One turn of match2's loop keeps the pieces found so far a prefix of the whole output. */
  lemma SegmentsStep(done: seq<Piece>, target: string, find: Matcher, fuel: nat, total: seq<Piece>)
    requires fuel > 0 && find(target).Some?
    requires done + Segments(target, find, fuel).pieces == total
    ensures (done + Head(target, find(target).value)) + Segments(After(target, find(target).value), find, fuel - 1).pieces == total
  {
    var m := find(target).value;
    var rest := Segments(After(target, m), find, fuel - 1).pieces;
    assert Segments(target, find, fuel).pieces == Head(target, m) + rest;
    assert (done + Head(target, m)) + rest == done + (Head(target, m) + rest);
  }

  /** The texts of the pieces, concatenated. */
  function Joined(ps: seq<Piece>): string
    decreases |ps|
  {
    if |ps| == 0 then "" else ps[0].text + Joined(ps[1..])
  }

  function MatchedCount(ps: seq<Piece>): nat
    decreases |ps|
  {
    if |ps| == 0 then 0 else (if ps[0].matched then 1 else 0) + MatchedCount(ps[1..])
  }

  lemma {:induction false} JoinedAppend(a: seq<Piece>, b: seq<Piece>)
    ensures Joined(a + b) == Joined(a) + Joined(b)
    ensures MatchedCount(a + b) == MatchedCount(a) + MatchedCount(b)
    decreases |a|
  {
    if |a| == 0 {
      assert a + b == b;
    } else {
      assert (a + b)[1..] == a[1..] + b;
      JoinedAppend(a[1..], b);
    }
  }

  /** Sound restricted to the strings match2 searches with `fuel` matches allowed. */
  ghost predicate SoundAlong(target: string, find: Matcher, fuel: nat)
    decreases fuel
  {
    fuel == 0 || find(target).None? ||
      var m := find(target).value;
      m.index + |m.text| <= |target| && target[m.index..m.index + |m.text|] == m.text
      && SoundAlong(After(target, m), find, fuel - 1)
  }

  lemma {:induction false} SoundAlongAll(target: string, find: Matcher, fuel: nat)
    requires Sound(find)
    ensures SoundAlong(target, find, fuel)
    decreases fuel
  {
    if fuel > 0 && find(target).Some? {
      var m := find(target).value;
      SoundAt(find, target);
      SoundAlongAll(After(target, m), find, fuel - 1);
    }
  }

  /** What Sound says about one search. */
  lemma SoundAt(find: Matcher, s: string)
    requires Sound(find) && find(s).Some?
    ensures find(s).value.index + |find(s).value.text| <= |s|
    ensures s[find(s).value.index..find(s).value.index + |find(s).value.text|] == find(s).value.text
  {
  }

  /** match2 loses nothing: the pieces followed by the unsearched rest spell the input. */
  lemma SegmentsJoin(target: string, find: Matcher, fuel: nat)
    requires Sound(find)
    ensures Joined(Segments(target, find, fuel).pieces) + Segments(target, find, fuel).rest == target
  {
    SoundAlongAll(target, find, fuel);
    JoinAlong(target, find, fuel);
  }

  lemma {:induction false} JoinAlong(target: string, find: Matcher, fuel: nat)
    requires SoundAlong(target, find, fuel)
    ensures Joined(Segments(target, find, fuel).pieces) + Segments(target, find, fuel).rest == target
    decreases fuel
  {
    if fuel > 0 && find(target).Some? {
      var m := find(target).value;
      JoinAlong(After(target, m), find, fuel - 1);
      JoinStep(target, m, Segments(After(target, m), find, fuel - 1));
    } else if fuel > 0 && |target| > 0 {
      assert Joined(Segments(target, find, fuel).pieces) == target + Joined([]);
    }
  }

  /** One match, the text before it and the pieces after it spell the searched string. */
  lemma JoinStep(target: string, m: Found, tail: Segmented)
    requires m.index + |m.text| <= |target| && target[m.index..m.index + |m.text|] == m.text
    requires Joined(tail.pieces) + tail.rest == After(target, m)
    ensures Joined(Head(target, m) + tail.pieces) + tail.rest == target
  {
    JoinedHead(target, m);
    JoinedAppend(Head(target, m), tail.pieces);
    Regroup(Joined(Head(target, m)), Joined(tail.pieces), tail.rest);
    Slices(target, m.index, m.index + |m.text|);
  }

  /** The pieces one match adds spell the text up to the end of the match. */
  lemma JoinedHead(target: string, m: Found)
    requires m.index + |m.text| <= |target|
    ensures Joined(Head(target, m)) == target[..m.index] + m.text
  {
    var i := m.index;
    var pre := if i > 0 then [Piece(false, Prefix(target, i))] else [];
    JoinedAppend(pre, [Piece(true, m.text)]);
    assert Joined([Piece(true, m.text)]) == m.text + Joined([]);
    assert Joined(pre) == target[..i] by {
      if i > 0 {
        assert Joined(pre) == target[..i] + Joined([]);
      }
    }
  }

  lemma Regroup(a: string, b: string, c: string)
    ensures (a + b) + c == a + (b + c)
  {
  }

  lemma Slices(s: string, i: nat, e: nat)
    requires i <= e <= |s|
    ensures s == s[..i] + s[i..e] + s[e..]
  {
  }

  /** Unmatched pieces are non-empty and never adjacent. */
  ghost predicate Alternates(ps: seq<Piece>)
  {
    (forall k :: 0 <= k < |ps| && !ps[k].matched ==> |ps[k].text| > 0)
    && (forall i, j :: 0 <= i < j < |ps| && j == i + 1 ==> ps[i].matched || ps[j].matched)
  }

  /** Unmatched pieces are never empty, and no two of them are adjacent. */
  lemma SegmentsAlternate(target: string, find: Matcher, fuel: nat)
    requires Sound(find)
    ensures Alternates(Segments(target, find, fuel).pieces)
  {
    SoundAlongAll(target, find, fuel);
    AlternateAlong(target, find, fuel);
  }

  lemma {:induction false} AlternateAlong(target: string, find: Matcher, fuel: nat)
    requires SoundAlong(target, find, fuel)
    ensures Alternates(Segments(target, find, fuel).pieces)
    decreases fuel
  {
    if fuel > 0 && find(target).Some? {
      var m := find(target).value;
      AlternateAlong(After(target, m), find, fuel - 1);
      AlternateStep(target, m, Segments(After(target, m), find, fuel - 1).pieces);
    } else if fuel > 0 {
      var ps := Segments(target, find, fuel).pieces;
      assert |ps| <= 1 && (|ps| == 1 ==> |ps[0].text| > 0);
    }
  }

  /** The text before a match, a match and alternating pieces after it still alternate. */
  lemma AlternateStep(target: string, m: Found, tail: seq<Piece>)
    requires m.index <= |target| && Alternates(tail)
    ensures Alternates(Head(target, m) + tail)
  {
    var head := Head(target, m);
    var r := head + tail;
    assert m.index > 0 ==> |Prefix(target, m.index)| > 0;
    forall i, j | 0 <= i < j < |r| && j == i + 1
      ensures r[i].matched || r[j].matched
    {
      if i >= |head| {
        assert r[i] == tail[i - |head|];
        assert r[j] == tail[j - |head|];
      }
    }
    forall k | 0 <= k < |r| && !r[k].matched
      ensures |r[k].text| > 0
    {
      if k >= |head| {
        assert r[k] == tail[k - |head|];
      }
    }
  }

  /** Text is left unsearched only when all 1000 matches were used up. */
  lemma {:induction false} SegmentsComplete(target: string, find: Matcher, fuel: nat)
    ensures MatchedCount(Segments(target, find, fuel).pieces) < fuel ==> Segments(target, find, fuel).rest == ""
    decreases fuel
  {
    if fuel > 0 && find(target).Some? {
      var m := find(target).value;
      SegmentsComplete(After(target, m), find, fuel - 1);
      CountStep(target, m, Segments(After(target, m), find, fuel - 1).pieces);
    }
  }

  /** The text before a match and the match add exactly one to the count of matched pieces. */
  lemma CountStep(target: string, m: Found, tail: seq<Piece>)
    ensures MatchedCount(Head(target, m) + tail) == MatchedCount(tail) + 1
  {
    var pre := if m.index > 0 then [Piece(false, Prefix(target, m.index))] else [];
    JoinedAppend(pre, [Piece(true, m.text)]);
    JoinedAppend(Head(target, m), tail);
    assert MatchedCount([Piece(true, m.text)]) == 1;
    assert MatchedCount(pre) == 0 by {
      if m.index > 0 {
        assert MatchedCount(pre) == 0 + MatchedCount([]);
      }
    }
  }

  // ---------------------------------------------------------------------
  // InterpolationCalculation
  // ---------------------------------------------------------------------

  /** The range expansion stops after this many values. */
  const STEP_LIMIT: nat := 0x10000

  const ILLEGAL_ARGUMENT: string := "IllegalArgumentException"

  /** compareTo's result as the number -1, 0 or 1. */
  function SignOf(o: Order): (s: int)
    ensures -1 <= s <= 1
  {
    if o == Less then -1 else if o == More then 1 else 0
  }

  function Reverse(o: Order): Order {
    if o == Less then More else if o == More then Less else o
  }

  /**
   * The loop's exit test for a new value `num`, with c = from.compareTo(to):
   * past `to` when the last value is included, at or past `to` otherwise.
   */
  predicate Stops(to: Complex, num: Complex, c: Order, inclusive: bool) {
    if inclusive then Compare(to, num, 0.0) == c
    else SignOf(Compare(to, num, 0.0)) * SignOf(c) >= 0
  }

  /** The values the loop appends after `num`, the i-th value of the range being next. */
  function Steps(num: Complex, delta: Complex, to: Complex, c: Order, inclusive: bool, i: nat): seq<Complex>
    requires 1 <= i <= STEP_LIMIT
    decreases STEP_LIMIT - i
  {
    if i == STEP_LIMIT then []
    else
      var next := Add(num, delta);
      if Stops(to, next, c, inclusive) then [] else [next] + Steps(next, delta, to, c, inclusive, i + 1)
  }

  /** The k-th value of the progression from `from` in steps of `delta`. */
  function Along(from: Complex, delta: Complex, k: nat): (x: Complex)
    ensures Key(x) == Key(from) + (k as real) * Key(delta)
  {
    Complex(from.re + (k as real) * delta.re, from.im + (k as real) * delta.im)
  }

  /** The guards of the source: a zero step, or a negative step with from < to. */
  predicate RejectedAsWritten(delta: Complex, c: Order) {
    IsZero(delta, 0.0) || (IsNegative(delta) && c == Less)
  }

  /**
   * The guards as intended: in addition a step whose key does not move
   * towards `to`, which the source lets through when from > to.
   */
  predicate Rejected(delta: Complex, c: Order) {
    RejectedAsWritten(delta, c) || (c == Less && Key(delta) <= 0.0) || (c == More && Key(delta) >= 0.0)
  }

  /** InterpolationCalculation as written. */
  function InterpAsWritten(from: Complex, delta: Complex, to: Complex, inclusive: bool): (r: Result<seq<Complex>>)
    ensures Compare(from, to, 0.0) == Same ==> r == Ok([from])
    ensures r.Err? <==> Compare(from, to, 0.0) != Same && RejectedAsWritten(delta, Compare(from, to, 0.0))
  {
    var c := Compare(from, to, 0.0);
    if c == Same then Ok([from])
    else if RejectedAsWritten(delta, c) then Err(ILLEGAL_ARGUMENT)
    else Ok([from] + Steps(from, delta, to, c, inclusive, 1))
  }

  /** InterpolationCalculation with the missing direction check added. */
  function Interp(from: Complex, delta: Complex, to: Complex, inclusive: bool): (r: Result<seq<Complex>>)
    ensures Compare(from, to, 0.0) == Same ==> r == Ok([from])
    ensures r.Err? <==> Compare(from, to, 0.0) != Same && Rejected(delta, Compare(from, to, 0.0))
    ensures r.Ok? && Compare(from, to, 0.0) != Same ==> r == InterpAsWritten(from, delta, to, inclusive)
  {
    var c := Compare(from, to, 0.0);
    if c == Same then Ok([from])
    else if Rejected(delta, c) then Err(ILLEGAL_ARGUMENT)
    else Ok([from] + Steps(from, delta, to, c, inclusive, 1))
  }

  /** The loop of InterpolationCalculation, after its guards. */
  method RangeSteps(from: Complex, delta: Complex, to: Complex, c: Order, inclusive: bool) returns (rows_array: seq<Complex>)
    ensures rows_array == [from] + Steps(from, delta, to, c, inclusive, 1)
  {
    var num := from;
    rows_array := [num];
    var i := 1;
    while i < STEP_LIMIT
      invariant 1 <= i <= STEP_LIMIT
      invariant rows_array + Steps(num, delta, to, c, inclusive, i) == [from] + Steps(from, delta, to, c, inclusive, 1)
      decreases STEP_LIMIT - i
    {
      var stop;
      rows_array, num, stop := RangeTurn(rows_array, num, delta, to, c, inclusive, i);
      if stop {
        return;
      }
      i := i + 1;
    }
    assert i == STEP_LIMIT && rows_array + [] == rows_array;
  }

  /** One pass of that loop: the next value, and either the stop or the value appended. */
  method RangeTurn(rows: seq<Complex>, num: Complex, delta: Complex, to: Complex, c: Order, inclusive: bool, i: nat)
    returns (rows': seq<Complex>, num': Complex, stop: bool)
    requires 1 <= i < STEP_LIMIT
    ensures stop ==> rows' == rows + Steps(num, delta, to, c, inclusive, i)
    ensures !stop ==> rows' + Steps(num', delta, to, c, inclusive, i + 1) == rows + Steps(num, delta, to, c, inclusive, i)
  {
    StepsTurn(rows, num, delta, to, c, inclusive, i);
    num' := Add(num, delta);
    stop := PastEnd(to, num', c, inclusive);
    rows' := if stop then rows else rows + [num'];
  }

  /** The loop's exit test for a new value `num`. */
  method PastEnd(to: Complex, num: Complex, c: Order, inclusive: bool) returns (stop: bool)
    ensures stop == Stops(to, num, c, inclusive)
  {
    if inclusive {
      stop := Compare(to, num, 0.0) == c;
    } else {
      stop := SignOf(Compare(to, num, 0.0)) * SignOf(c) >= 0;
    }
  }

  /** One turn of the range loop: a value past the end adds nothing, any other value is appended. */
  lemma StepsTurn(rows: seq<Complex>, num: Complex, delta: Complex, to: Complex, c: Order, inclusive: bool, i: nat)
    requires 1 <= i < STEP_LIMIT
    ensures Stops(to, Add(num, delta), c, inclusive) ==> rows + Steps(num, delta, to, c, inclusive, i) == rows
    ensures !Stops(to, Add(num, delta), c, inclusive) ==>
      rows + Steps(num, delta, to, c, inclusive, i) == (rows + [Add(num, delta)]) + Steps(Add(num, delta), delta, to, c, inclusive, i + 1)
  {
    if Stops(to, Add(num, delta), c, inclusive) {
      assert rows + [] == rows;
    }
  }

  /** InterpolationCalculation(from, delta, to, is_include_last_number), as written. */
  method InterpolationCalculationAsWritten(from: Complex, delta: Complex, to: Complex, inclusive: bool) returns (r: Result<seq<Complex>>)
    ensures r == InterpAsWritten(from, delta, to, inclusive)
  {
    var c := Compare(from, to, 0.0);
    if c == Same {
      return Ok([from]);
    }
    if IsZero(delta, 0.0) {
      return Err(ILLEGAL_ARGUMENT);
    }
    if IsNegative(delta) && c == Less {
      return Err(ILLEGAL_ARGUMENT);
    }
    var rows := RangeSteps(from, delta, to, c, inclusive);
    r := Ok(rows);
  }

  /** InterpolationCalculation with the direction check that makes every range end at `to`. */
  method InterpolationCalculation(from: Complex, delta: Complex, to: Complex, inclusive: bool) returns (r: Result<seq<Complex>>)
    ensures r == Interp(from, delta, to, inclusive)
  {
    var c := Compare(from, to, 0.0);
    if c == Same {
      return Ok([from]);
    }
    if Rejected(delta, c) {
      return Err(ILLEGAL_ARGUMENT);
    }
    var rows := RangeSteps(from, delta, to, c, inclusive);
    r := Ok(rows);
  }

  lemma {:induction false} StepsShape(num: Complex, delta: Complex, to: Complex, c: Order, inclusive: bool, i: nat)
    requires 1 <= i <= STEP_LIMIT
    ensures |Steps(num, delta, to, c, inclusive, i)| <= STEP_LIMIT - i
    ensures forall j :: 0 <= j < |Steps(num, delta, to, c, inclusive, i)| ==>
      Steps(num, delta, to, c, inclusive, i)[j] == Along(num, delta, j + 1)
      && !Stops(to, Steps(num, delta, to, c, inclusive, i)[j], c, inclusive)
    decreases STEP_LIMIT - i
  {
    if i < STEP_LIMIT {
      var next := Add(num, delta);
      if !Stops(to, next, c, inclusive) {
        var tail := Steps(next, delta, to, c, inclusive, i + 1);
        StepsShape(next, delta, to, c, inclusive, i + 1);
        forall j | 0 <= j < |tail|
          ensures tail[j] == Along(num, delta, j + 2)
        {
          AlongShift(num, delta, j + 1);
        }
        assert next == Along(num, delta, 1);
      }
    }
  }

  lemma AlongShift(num: Complex, delta: Complex, k: nat)
    ensures Along(Add(num, delta), delta, k) == Along(num, delta, k + 1)
  {
    assert (k as real) * delta.re + delta.re == ((k + 1) as real) * delta.re;
    assert (k as real) * delta.im + delta.im == ((k + 1) as real) * delta.im;
  }

  /**
   * A range holds between 1 and 0x10000 values: `from`, then `from + k·delta`
   * for k = 1, 2, … as long as the exit test does not fire.
   */
  lemma InterpValues(from: Complex, delta: Complex, to: Complex, inclusive: bool)
    ensures InterpAsWritten(from, delta, to, inclusive).Ok? ==>
      var r := InterpAsWritten(from, delta, to, inclusive).value;
      1 <= |r| <= STEP_LIMIT && forall k :: 0 <= k < |r| ==> r[k] == Along(from, delta, k)
  {
    var c := Compare(from, to, 0.0);
    if c != Same && !RejectedAsWritten(delta, c) {
      var steps := Steps(from, delta, to, c, inclusive, 1);
      StepsShape(from, delta, to, c, inclusive, 1);
      var r := [from] + steps;
      assert InterpAsWritten(from, delta, to, inclusive).value == r;
      forall k | 0 <= k < |r|
        ensures r[k] == Along(from, delta, k)
      {
        if k == 0 {
          assert Along(from, delta, 0) == from;
        } else {
          assert r[k] == steps[k - 1];
        }
      }
    }
  }

  /**
   * x lies on the range from `from` towards `to`: its key has not moved
   * backwards, and it is not past `to` (not at or past `to` when the last
   * value is excluded).
   */
  predicate OnRange(from: Complex, to: Complex, x: Complex, inclusive: bool) {
    var c := Compare(from, to, 0.0);
    (c == Less ==> Key(from) <= Key(x))
    && (c == More ==> Key(x) <= Key(from))
    && (c != Same ==> if inclusive then Compare(to, x, 0.0) != c else Compare(to, x, 0.0) == Reverse(c))
  }

  lemma StopsReverse(to: Complex, x: Complex, c: Order, inclusive: bool)
    requires c == Less || c == More
    requires !Stops(to, x, c, inclusive)
    ensures if inclusive then Compare(to, x, 0.0) != c else Compare(to, x, 0.0) == Reverse(c)
  {
  }

  /**
   * With the direction check every value of a range lies between `from` and
   * `to`: the range never runs away from `to`, and the last value is within
   * the tolerance of `to` (strictly before it for arange).
   */
  lemma InterpOnRange(from: Complex, delta: Complex, to: Complex, inclusive: bool)
    ensures Interp(from, delta, to, inclusive).Ok? ==>
      forall k :: 0 <= k < |Interp(from, delta, to, inclusive).value| ==>
        OnRange(from, to, Interp(from, delta, to, inclusive).value[k], inclusive)
  {
    var c := Compare(from, to, 0.0);
    if c != Same && !Rejected(delta, c) {
      CompareAntisymmetric(from, to, 0.0);
      InterpValues(from, delta, to, inclusive);
      StepsShape(from, delta, to, c, inclusive, 1);
      var steps := Steps(from, delta, to, c, inclusive, 1);
      var r := [from] + steps;
      forall k | 0 <= k < |r|
        ensures OnRange(from, to, r[k], inclusive)
      {
        if k > 0 {
          OnRangeAt(from, delta, to, inclusive, steps[k - 1], k);
        }
      }
    }
  }

  /** The k-th value of an accepted range lies on it when the exit test did not fire for it. */
  lemma OnRangeAt(from: Complex, delta: Complex, to: Complex, inclusive: bool, x: Complex, k: nat)
    requires Compare(from, to, 0.0) != Same && !Rejected(delta, Compare(from, to, 0.0))
    requires k > 0 && x == Along(from, delta, k) && !Stops(to, x, Compare(from, to, 0.0), inclusive)
    ensures OnRange(from, to, x, inclusive)
  {
    var c := Compare(from, to, 0.0);
    StopsReverse(to, x, c, inclusive);
    var p := (k as real) * Key(delta);
    assert Key(x) == Key(from) + p;
    if c == Less {
      ProductPositive(k as real, Key(delta), p);
    } else {
      ProductPositive(k as real, -Key(delta), -p);
    }
  }

  /** Once the values have passed `to` in the wrong direction the exit test never fires again. */
  lemma {:induction false} StepsRunOn(num: Complex, delta: Complex, to: Complex, inclusive: bool, i: nat)
    requires 1 <= i <= STEP_LIMIT
    requires Key(delta) >= 0.0 && Compare(to, num, 0.0) == Less
    ensures |Steps(num, delta, to, More, inclusive, i)| == STEP_LIMIT - i
    decreases STEP_LIMIT - i
  {
    if i < STEP_LIMIT {
      var next := Add(num, delta);
      assert Compare(to, next, 0.0) == Less;
      StepsRunOn(next, delta, to, inclusive, i + 1);
    }
  }

  /**
   * As written, a range with from > to and a step whose key is positive is
   * not rejected: it counts up from `from`, away from `to`, until the
   * 0x10000-value cap, and none of its values after the first lies on the
   * range. The corrected guard rejects it.
   */
  lemma InterpAsWrittenRunsAway(from: Complex, delta: Complex, to: Complex, inclusive: bool)
    requires Compare(from, to, 0.0) == More && Key(delta) > 0.0 && !IsZero(delta, 0.0)
    ensures InterpAsWritten(from, delta, to, inclusive).Ok?
    ensures |InterpAsWritten(from, delta, to, inclusive).value| == STEP_LIMIT
    ensures forall k :: 0 < k < STEP_LIMIT ==>
      !OnRange(from, to, InterpAsWritten(from, delta, to, inclusive).value[k], inclusive)
    ensures Interp(from, delta, to, inclusive).Err?
  {
    CompareAntisymmetric(from, to, 0.0);
    StepsRunOn(from, delta, to, inclusive, 1);
    InterpValues(from, delta, to, inclusive);
    var r := InterpAsWritten(from, delta, to, inclusive).value;
    forall k | 0 < k < STEP_LIMIT
      ensures !OnRange(from, to, r[k], inclusive)
    {
      PastFrom(from, delta, to, inclusive, r[k], k);
    }
  }

  /** Counting up from `from` when from > to leaves the range at the first step. */
  lemma PastFrom(from: Complex, delta: Complex, to: Complex, inclusive: bool, x: Complex, k: nat)
    requires Compare(from, to, 0.0) == More && Key(delta) > 0.0
    requires k > 0 && x == Along(from, delta, k)
    ensures !OnRange(from, to, x, inclusive)
  {
    var p := (k as real) * Key(delta);
    ProductPositive(k as real, Key(delta), p);
    assert Key(x) == Key(from) + p;
  }

  /** `5:1`, whose step defaults to 1, is such a range: its second value is 6. */
  lemma FiveToOne(from: Complex)
    requires from == Complex(5.0, 0.0)
    ensures |InterpAsWritten(from, ONE, ONE, true).value| == STEP_LIMIT
    ensures InterpAsWritten(from, ONE, ONE, true).value[1] == Complex(6.0, 0.0)
    ensures Interp(from, ONE, ONE, true).Err?
  {
    assert Compare(from, ONE, 0.0) == More;
    InterpAsWrittenRunsAway(from, ONE, ONE, true);
    InterpValues(from, ONE, ONE, true);
    assert Along(from, ONE, 1) == Complex(6.0, 0.0);
  }

  // ---------------------------------------------------------------------
  // toArrayFromMatch2String
  // ---------------------------------------------------------------------

  /** The first error, or the values of both parts in order. */
  function Then(a: Result<seq<Complex>>, b: Result<seq<Complex>>): (r: Result<seq<Complex>>)
    ensures a.Err? ==> r == a
    ensures a.Ok? && b.Err? ==> r == b
    ensures a.Ok? && b.Ok? ==> r == Ok(a.value + b.value)
  {
    if a.Err? then a else if b.Err? then b else Ok(a.value + b.value)
  }

  predicate IsRangeMark(p: Piece) { !p.matched && ':' in p.text }

  /** The values of the pieces from index i on: a number token, or a range `a:b` / `a:s:b`. */
  function Expand(xs: seq<Piece>, parse: string -> Complex, i: nat): Result<seq<Complex>>
    decreases |xs| - i
  {
    if i >= |xs| then Ok([])
    else if !xs[i].matched then Expand(xs, parse, i + 1)
    else if i < |xs| - 2 && IsRangeMark(xs[i + 1]) then
      if i < |xs| - 4 && IsRangeMark(xs[i + 3]) then
        Then(Interp(parse(xs[i].text), parse(xs[i + 2].text), parse(xs[i + 4].text), true), Expand(xs, parse, i + 5))
      else
        Then(Interp(parse(xs[i].text), ONE, parse(xs[i + 2].text), true), Expand(xs, parse, i + 3))
    else Then(Ok([parse(xs[i].text)]), Expand(xs, parse, i + 1))
  }

  lemma ThenOk(a: seq<Complex>, b: Result<seq<Complex>>, c: Result<seq<Complex>>)
    ensures Then(Ok(a), Then(b, c)) == Then(Then(Ok(a), b), c)
    ensures Then(Ok([]), b) == b
  {
    if b.Ok? && c.Ok? {
      assert a + (b.value + c.value) == (a + b.value) + c.value;
    }
    if b.Ok? {
      assert [] + b.value == b.value;
    }
  }

  /** toArrayFromMatch2String(match2_string) */
  method ToArrayFromMatch2String(xs: seq<Piece>, parse: string -> Complex) returns (r: Result<seq<Complex>>)
    ensures r == Expand(xs, parse, 0)
  {
    var rows_array := [];
    var i := 0;
    ThenOk([], Expand(xs, parse, 0), Ok([]));
    while i < |xs|
      invariant 0 <= i
      invariant Then(Ok(rows_array), Expand(xs, parse, i)) == Expand(xs, parse, 0)
      decreases |xs| - i
    {
      var xx := xs[i];
      if !xx.matched {
        i := i + 1;
        continue;
      }
      if i < |xs| - 2 && IsRangeMark(xs[i + 1]) {
        var from, delta, to, next;
        if i < |xs| - 4 && IsRangeMark(xs[i + 3]) {
          from, delta, to, next := parse(xx.text), parse(xs[i + 2].text), parse(xs[i + 4].text), i + 5;
        } else {
          from, delta, to, next := parse(xx.text), ONE, parse(xs[i + 2].text), i + 3;
        }
        var ip_array := InterpolationCalculation(from, delta, to, true);
        ThenOk(rows_array, ip_array, Expand(xs, parse, next));
        if ip_array.Err? {
          return ip_array;
        }
        rows_array := rows_array + ip_array.value;
        i := next;
      } else {
        ThenOk(rows_array, Ok([parse(xx.text)]), Expand(xs, parse, i + 1));
        rows_array := rows_array + [parse(xx.text)];
        i := i + 1;
      }
    }
    assert rows_array + [] == rows_array;
    r := Ok(rows_array);
  }

  /** The parsed values of the matched pieces, in order. */
  function ParseMatched(xs: seq<Piece>, parse: string -> Complex): seq<Complex>
    decreases |xs|
  {
    if |xs| == 0 then [] else (if xs[0].matched then [parse(xs[0].text)] else []) + ParseMatched(xs[1..], parse)
  }

  /** Without a `:` between the tokens every number token stands for its own value. */
  lemma {:induction false} ExpandWithoutRanges(xs: seq<Piece>, parse: string -> Complex, i: nat)
    requires i <= |xs|
    requires forall k :: 0 <= k < |xs| ==> !IsRangeMark(xs[k])
    ensures Expand(xs, parse, i) == Ok(ParseMatched(xs[i..], parse))
    decreases |xs| - i
  {
    if i < |xs| {
      ExpandWithoutRanges(xs, parse, i + 1);
      assert xs[i..][1..] == xs[i + 1..];
      assert xs[i..][0] == xs[i];
      if i + 1 < |xs| {
        assert !IsRangeMark(xs[i + 1]);
      }
      var tail := ParseMatched(xs[i + 1..], parse);
      if xs[i].matched {
        assert ParseMatched(xs[i..], parse) == [parse(xs[i].text)] + tail;
      } else {
        assert ParseMatched(xs[i..], parse) == [] + tail;
        assert [] + tail == tail;
      }
    } else {
      assert xs[i..] == [];
    }
  }

  /** `a:b` is the range from a to b in steps of one, `a:s:b` the range in steps of s, both including b. */
  lemma ExpandRanges(a: string, s: string, b: string, mark: string, mark2: string, parse: string -> Complex)
    requires ':' in mark && ':' in mark2
    ensures Expand([Piece(true, a), Piece(false, mark), Piece(true, b)], parse, 0) == Interp(parse(a), ONE, parse(b), true)
    ensures Expand([Piece(true, a), Piece(false, mark), Piece(true, s), Piece(false, mark2), Piece(true, b)], parse, 0)
      == Interp(parse(a), parse(s), parse(b), true)
  {
    var r1 := Interp(parse(a), ONE, parse(b), true);
    var r2 := Interp(parse(a), parse(s), parse(b), true);
    assert r1.Ok? ==> r1.value + [] == r1.value;
    assert r2.Ok? ==> r2.value + [] == r2.value;
    assert Expand([Piece(true, a), Piece(false, mark), Piece(true, b)], parse, 3) == Ok([]);
    assert Expand([Piece(true, a), Piece(false, mark), Piece(true, s), Piece(false, mark2), Piece(true, b)], parse, 5) == Ok([]);
  }

  // ---------------------------------------------------------------------
  // toArrayFromString and the row readers
  // ---------------------------------------------------------------------

  /**
   * The abstract lexer: `prepare` is the lower-casing and the rewrite of
   * `inf`/`infinity`, `find` the number regular expression, `parse` the
   * numeral parser.
   */
  datatype Lexer = Lexer(prepare: string -> string, find: Matcher, parse: string -> Complex)

  /** A row of a literal: a bare `:` (dropped by the constructor) or its values. */
  datatype RowValue = Colon | Values(cells: seq<Complex>)

  /** toArrayFromString(row_text) */
  function ArrayFromString(row_text: string, lx: Lexer): (r: Result<RowValue>)
    ensures Trim(row_text) == ":" ==> r == Ok(Colon)
  {
    if Trim(row_text) == ":" then Ok(Colon)
    else
      var v := Expand(Segments(lx.prepare(row_text), lx.find, MATCH_LIMIT).pieces, lx.parse, 0);
      if v.Err? then Err(v.msg) else Ok(Values(v.value))
  }

  /** Every row read in order; the first error stops the reading. */
  function ReadRows(rows: seq<string>, lx: Lexer): (r: Result<seq<RowValue>>)
    ensures r.Ok? ==> (|r.value| == |rows|
      && forall k :: 0 <= k < |rows| ==> ArrayFromString(rows[k], lx) == Ok(r.value[k]))
    decreases |rows|
  {
    if |rows| == 0 then Ok([])
    else
      var head := ArrayFromString(rows[0], lx);
      var tail := ReadRows(rows[1..], lx);
      if head.Err? then Err(head.msg)
      else if tail.Err? then tail
      else
        ReadRowsCons(rows, lx, head.value, tail.value);
        Ok([head.value] + tail.value)
  }

  /** The first row's value in front of the values of the other rows gives the value of every row. */
  lemma ReadRowsCons(rows: seq<string>, lx: Lexer, h: RowValue, t: seq<RowValue>)
    requires |rows| > 0 && ArrayFromString(rows[0], lx) == Ok(h) && |t| == |rows| - 1
    requires forall k :: 0 <= k < |t| ==> ArrayFromString(rows[1..][k], lx) == Ok(t[k])
    ensures forall k :: 0 <= k < |rows| ==> ArrayFromString(rows[k], lx) == Ok(([h] + t)[k])
  {
    var read := row => ArrayFromString(row, lx);
    assert forall k :: 0 <= k < |t| ==> read(rows[1..][k]) == Ok(t[k]);
    ConsReads(rows, read, h, t);
  }

  lemma ConsReads<A, B>(xs: seq<A>, read: A -> Result<B>, h: B, t: seq<B>)
    requires |xs| > 0 && read(xs[0]) == Ok(h) && |t| == |xs| - 1
    requires forall k :: 0 <= k < |t| ==> read(xs[1..][k]) == Ok(t[k])
    ensures forall k :: 0 <= k < |xs| ==> read(xs[k]) == Ok(([h] + t)[k])
  {
    forall k | 1 <= k < |xs|
      ensures read(xs[k]) == Ok(([h] + t)[k])
    {
      assert xs[k] == xs[1..][k - 1] && ([h] + t)[k] == t[k - 1];
    }
  }

  /** toMatrixArrayFromStringForArraySPACE: the rows are separated by `;`. */
  function ForArraySpace(text: string, lx: Lexer): (r: Result<seq<RowValue>>)
    ensures r.Ok? ==> |r.value| == |Split(text, ';')|
  {
    ReadRows(Split(text, ';'), lx)
  }

  /** One JSON-style row `[a,b,…]`: the text between its brackets split on `,`, each piece parsed. */
  function JsonRow(row: string, parse: string -> Complex): (r: seq<Complex>)
    ensures |r| == |Split(Substring(row, 1, |row| - 1), ',')|
  {
    var cells := Split(Substring(row, 1, |row| - 1), ',');
    seq(|cells|, k requires 0 <= k < |cells| => parse(cells[k]))
  }

  /** toMatrixArrayFromStringForArrayJSON: the rows are the bracketed groups, or the whole text when there are none. */
  function ForArrayJson(text: string, parse: string -> Complex): (r: seq<RowValue>)
    ensures |BracketGroups(text)| > 0 ==> (|r| == |BracketGroups(text)|
      && forall k :: 0 <= k < |r| ==> r[k] == Values(JsonRow(BracketGroups(text)[k], parse)))
    ensures |BracketGroups(text)| == 0 ==> r == [Values(JsonRow(text, parse))]
  {
    var groups := BracketGroups(text);
    var rows := if |groups| == 0 then [text] else groups;
    seq(|rows|, k requires 0 <= k < |rows| => Values(JsonRow(rows[k], parse)))
  }

  /** `[a],[b]` holds the two rows `[a]` and `[b]`. */
  lemma JsonTwoGroups(a: string, b: string, parse: string -> Complex)
    requires |a| > 0 && ']' !in a && |b| > 0 && ']' !in b
    ensures ForArrayJson("[" + a + "]" + ",[" + b + "]", parse)
      == [Values(JsonRow("[" + a + "]", parse)), Values(JsonRow("[" + b + "]", parse))]
  {
    TwoGroups(a, b);
  }

  /** The cells of a row `[a]` are the `,`-separated pieces of a. */
  lemma JsonRowInside(a: string, parse: string -> Complex)
    ensures JsonRow("[" + a + "]", parse) == seq(|Split(a, ',')|, k requires 0 <= k < |Split(a, ',')| => parse(Split(a, ',')[k]))
  {
    var g := "[" + a + "]";
    assert Substring(g, 1, |g| - 1) == g[1..|g| - 1] == a;
  }

  /** `[x,x],[y]` gives the rows [x, x] and [y]. */
  lemma JsonTwoRows(a: string, b: string, parse: string -> Complex)
    requires |a| > 0 && ']' !in a && '[' !in a && ',' !in a
    requires |b| > 0 && ']' !in b && '[' !in b && ',' !in b
    ensures ForArrayJson("[" + (a + "," + a) + "]" + ",[" + b + "]", parse)
      == [Values([parse(a), parse(a)]), Values([parse(b)])]
  {
    var first := a + "," + a;
    assert ']' !in first;
    JsonTwoGroups(first, b, parse);
    JsonRowInside(first, parse);
    JsonRowInside(b, parse);
    SplitPair(a, a);
    SplitNone(b, ',');
    assert JsonRow("[" + first + "]", parse) == [parse(a), parse(a)];
    assert JsonRow("[" + b + "]", parse) == [parse(b)];
  }

  lemma SplitPair(a: string, b: string)
    requires ',' !in a && ',' !in b
    ensures Split(a + "," + b, ',') == [a, b]
  {
    assert a + "," + b == a + ("," + b);
    SplitPrefix(a, "," + b);
    assert ("," + b)[1..] == b;
    SplitNone(b, ',');
  }

  lemma {:induction false} SplitPrefix(a: string, rest: string)
    requires ',' !in a && |rest| > 0 && rest[0] == ','
    ensures Split(a + rest, ',') == [a] + Split(rest[1..], ',')
    decreases |a|
  {
    if |a| > 0 {
      assert (a + rest)[1..] == a[1..] + rest;
      assert ',' !in a[1..] by {
        forall k | 0 <= k < |a[1..]| ensures a[1..][k] != ',' {
          assert a[1..][k] == a[k + 1];
        }
      }
      SplitPrefix(a[1..], rest);
      assert [a[0]] + a[1..] == a;
    } else {
      assert a + rest == rest;
    }
  }

  /** toMatrixArrayFromStringInBracket: JSON rows when the text still holds a bracket, `;` rows otherwise. */
  function InBracket(text: string, lx: Lexer): (r: Result<seq<RowValue>>)
    ensures ('[' in text || ']' in text) ==> r == Ok(ForArrayJson(text, lx.parse))
    ensures !('[' in text || ']' in text) ==> r == ForArraySpace(text, lx)
  {
    if '[' in text || ']' in text then Ok(ForArrayJson(text, lx.parse)) else ForArraySpace(text, lx)
  }

  predicate IsDigit(c: char) { '0' <= c <= '9' }

  /** /[;,]|[0-9]\s+[0-9]/: a `;`, a `,`, or two digits with white space between them. */
  predicate LooksLikeList(text: string) {
    ';' in text || ',' in text
    || exists i, j :: 0 <= i && i + 1 < j < |text| && IsDigit(text[i]) && IsDigit(text[j]) && AllSpace(text[i + 1..j])
  }

  /** text.replace(/[[\]]/g, "").replace(/,/g, " ") */
  function Unbracket(text: string): (r: string)
    ensures '[' !in r && ']' !in r && ',' !in r
    decreases |text|
  {
    if |text| == 0 then ""
    else
      var c := text[0];
      var rest := Unbracket(text[1..]);
      if c == '[' || c == ']' then rest else [if c == ',' then ' ' else c] + rest
  }

  /** Every row holds values, and they form a non-empty rectangle. */
  predicate RectangularValues(rows: seq<RowValue>) {
    (forall k :: 0 <= k < |rows| ==> rows[k].Values?) && Grid.IsRect(Cells(rows))
  }

  function Cells(rows: seq<RowValue>): (m: Grid.Grid)
    ensures |m| == |rows|
    ensures forall k :: 0 <= k < |rows| && rows[k].Values? ==> m[k] == rows[k].cells
  {
    seq(|rows|, k requires 0 <= k < |rows| => if rows[k].Values? then rows[k].cells else [])
  }

  function AsRows(m: Grid.Grid): (rows: seq<RowValue>)
    ensures |rows| == |m| && forall k :: 0 <= k < |m| ==> rows[k] == Values(m[k])
  {
    seq(|m|, k requires 0 <= k < |m| => Values(m[k]))
  }

  /**
   * toMatrixArrayFromString: a bracketed literal is read inside its brackets
   * and conjugate-transposed when it ends in an odd number of `'`; an
   * unbracketed list has its brackets dropped and `,` read as a space; any
   * other text is one number.
   */
  function MatrixArrayFromString(text: string, lx: Lexer): (r: Result<seq<RowValue>>)
    ensures TrimBracket(Trim(text)).None? && !LooksLikeList(text) ==> r == Ok([Values([lx.parse(text)])])
  {
    var wb := TrimBracket(Trim(text));
    if wb.Some? then
      var array_data := InBracket(wb.value.text, lx);
      if array_data.Err? || !wb.value.is_transpose then array_data
      else if RectangularValues(array_data.value) then Ok(AsRows(Grid.CTranspose(Cells(array_data.value))))
      else Err("new Matrix IllegalArgumentException")
    else if LooksLikeList(text) then InBracket(Unbracket(text), lx)
    else Ok([Values([lx.parse(text)])])
  }

  /** A bracketed literal followed by an odd number of quotes is the conjugate transpose of the plain literal. */
  lemma TransposedLiteral(inner: string, q: string, lx: Lexer)
    requires AllDash(q) && |q| > 0 && q[|q| - 1] == '\'' && QuoteCount(q) % 2 == 1
    requires InBracket(inner, lx).Ok? && RectangularValues(InBracket(inner, lx).value)
    ensures MatrixArrayFromString("[" + inner + "]" + q, lx) == Ok(AsRows(Grid.CTranspose(Cells(InBracket(inner, lx).value))))
  {
    BracketedLiteral("[" + inner + "]" + q, inner, q);
  }

  /** A bracketed literal followed by no quote, or an even number of them, is read inside its brackets. */
  lemma PlainLiteral(inner: string, q: string, lx: Lexer)
    requires AllDash(q) && (|q| == 0 || q[|q| - 1] == '\'') && QuoteCount(q) % 2 == 0
    ensures MatrixArrayFromString("[" + inner + "]" + q, lx) == InBracket(inner, lx)
  {
    BracketedLiteral("[" + inner + "]" + q, inner, q);
  }

  /** Trimming and bracket trimming recover the text inside the brackets and the parity of the quotes. */
  lemma BracketedLiteral(text: string, inner: string, q: string)
    requires text == "[" + inner + "]" + q
    requires AllDash(q) && (|q| == 0 || q[|q| - 1] == '\'')
    ensures TrimBracket(Trim(text)) == Some(Bracketed(inner, QuoteCount(q) % 2 == 1))
  {
    BracketedTrimmed(text, q);
    TrimBracketRoundTrip(inner, q);
  }

  /** A literal that opens with `[` and ends in `]` or `'` is left alone by trimming. */
  lemma BracketedTrimmed(t: string, q: string)
    requires |t| > |q| && t[0] == '[' && (if |q| == 0 then t[|t| - 1] == ']' else t[|t| - 1] == '\'')
    ensures Trim(t) == t
  {
    TrimAround("", t, "");
    assert "" + t + "" == t;
  }

  // ---------------------------------------------------------------------
  // isCorrectMatrixArray
  // ---------------------------------------------------------------------

  /** isCorrectMatrixArray(m_array) */
  method IsCorrectMatrixArray(m_array: Grid.Grid) returns (b: bool)
    ensures b == Grid.IsRect(m_array)
  {
    if |m_array| == 0 {
      return false;
    }
    var num := |m_array[0]|;
    if num == 0 {
      return false;
    }
    var i := 1;
    while i < |m_array|
      invariant 1 <= i <= |m_array|
      invariant forall k :: 0 <= k < i ==> |m_array[k]| == num
    {
      if |m_array[i]| != num {
        return false;
      }
      i := i + 1;
    }
    return true;
  }

  // ---------------------------------------------------------------------
  // toPositionArrayFromObject
  // ---------------------------------------------------------------------

  /** What getMatrix/setMatrix receive as an index: a string, a matrix, or a number. */
  datatype Position = PositionText(text: string) | PositionMatrix(m: Grid.Grid) | PositionNumber(n: int)

  function TruncInt(x: real): (n: int)
    ensures n as real == Polyfill.Trunc(x)
  {
    Polyfill.Trunc(x).Floor
  }

  function TruncAll(v: seq<Complex>): (r: seq<int>)
    ensures |r| == |v| && forall k :: 0 <= k < |v| ==> r[k] == TruncInt(v[k].re)
  {
    seq(|v|, k requires 0 <= k < |v| => TruncInt(v[k].re))
  }

  /**
   * The indices a position argument denotes: `:` is every index of a
   * dimension of length `max`, offset by `geta`; a string or a vector gives
   * the truncated real parts of its values; a number is itself.
   */
  function Positions(data: Position, max: nat, geta: int, lx: Lexer): (r: Result<seq<int>>)
    requires data.PositionMatrix? ==> Grid.IsRect(data.m)
    ensures data.PositionNumber? ==> r == Ok([data.n])
    ensures data.PositionMatrix? ==> (r.Ok? <==> |data.m| == 1 || Grid.Cols(data.m) == 1)
  {
    match data
    case PositionText(text) =>
      var v := ArrayFromString(text, lx);
      if v.Err? then Err(v.msg)
      else if v.value.Colon? then Ok(Offsets(max, geta))
      else Ok(TruncAll(v.value.cells))
    case PositionMatrix(m) =>
      if |m| == 1 then Ok(TruncAll(m[0]))
      else if Grid.Cols(m) == 1 then Ok(TruncAll(Grid.Column(m, 0)))
      else Err("getMatrix argument")
    case PositionNumber(n) => Ok([n])
  }

  /** Every index of a dimension of length max, offset by geta. */
  function Offsets(max: nat, geta: int): (s: seq<int>)
    ensures |s| == max && forall k :: 0 <= k < max ==> s[k] == k + geta
  {
    seq(max, i => i + geta)
  }

  /** The loop that lists the indices `:` denotes. */
  method OffsetLoop(max: nat, geta: int) returns (y: seq<int>)
    ensures y == Offsets(max, geta)
  {
    y := [];
    var i := 0;
    while i < max
      invariant 0 <= i <= max
      invariant |y| == i && forall k :: 0 <= k < i ==> y[k] == k + geta
    {
      y := y + [i + geta];
      i := i + 1;
    }
  }

  /** toPositionArrayFromObject(data, max, geta) */
  method ToPositionArrayFromObject(data: Position, max: nat, geta: int, lx: Lexer) returns (r: Result<seq<int>>)
    requires data.PositionMatrix? ==> Grid.IsRect(data.m)
    ensures r == Positions(data, max, geta, lx)
  {
    match data {
      case PositionText(text) =>
        var v := ArrayFromString(text, lx);
        if v.Err? {
          return Err(v.msg);
        }
        if v.value.Colon? {
          var y := OffsetLoop(max, geta);
          return Ok(y);
        }
        var y := TruncLoop(v.value.cells);
        return Ok(y);
      case PositionMatrix(m) =>
        if |m| != 1 && Grid.Cols(m) != 1 {
          return Err("getMatrix argument");
        }
        var y;
        if |m| == 1 {
          y := TruncLoop(m[0]);
        } else {
          y := TruncLoop(Grid.Column(m, 0));
        }
        return Ok(y);
      case PositionNumber(n) =>
        return Ok([n]);
    }
  }

  method TruncLoop(v: seq<Complex>) returns (y: seq<int>)
    ensures y == TruncAll(v)
  {
    y := [];
    var i := 0;
    while i < |v|
      invariant 0 <= i <= |v|
      invariant y == TruncAll(v[..i])
    {
      assert v[..i + 1] == v[..i] + [v[i]];
      y := y + [TruncInt(v[i].re)];
      i := i + 1;
    }
    assert v[..|v|] == v;
  }
}
