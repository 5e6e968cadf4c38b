/**
 * Reading examples in the LibSVM text format, src/commons/io.rs: a line is
 * a label token followed by `index:value` tokens, separated by white space.
 *
 * Parsing a feature value is generic in the source (`TFeature: FromStr`);
 * here it is the parameter `parse`, which answers `None` where `FromStr`
 * fails.  Every `unwrap` that can panic becomes a `None` result.
 */
module LibSvm {
  import opened Wrappers

  /** Lines 5-8 of src/labeled_data.rs: a feature vector and its label. */
  datatype LabeledData<F> = LabeledData(features: seq<F>, labelValue: int)

  /** The characters `char::is_whitespace` accepts (Unicode White_Space). */
  predicate IsWhitespace(c: char) {
    c == ' ' || '\t' <= c <= '\r' || c == '\U{0085}' || c == '\U{00A0}' || c == '\U{1680}' ||
    '\U{2000}' <= c <= '\U{200A}' || c == '\U{2028}' || c == '\U{2029}' || c == '\U{202F}' ||
    c == '\U{205F}' || c == '\U{3000}'
  }

  predicate IsToken(t: string) {
    t != [] && forall i :: 0 <= i < |t| ==> !IsWhitespace(t[i])
  }

  /** The length of the token at the start of `s`. */
  function TokenLength(s: string): (n: nat)
    ensures n <= |s|
    ensures forall i :: 0 <= i < n ==> !IsWhitespace(s[i])
    ensures n < |s| ==> IsWhitespace(s[n])
  {
    if s == [] || IsWhitespace(s[0]) then 0 else 1 + TokenLength(s[1..])
  }

  /** `str::split_whitespace`: the maximal runs of non-white-space characters. */
  function SplitWhitespace(s: string): (ts: seq<string>)
    ensures forall i :: 0 <= i < |ts| ==> IsToken(ts[i])
    decreases |s|
  {
    if s == [] then []
    else if IsWhitespace(s[0]) then SplitWhitespace(s[1..])
    else
      var n := TokenLength(s);
      [s[..n]] + SplitWhitespace(s[n..])
  }

  /** A maximal run of non-white-space characters starts at position `i` of `s`. */
  predicate RunStart(s: string, i: nat) {
    i < |s| && !IsWhitespace(s[i]) && (i == 0 || IsWhitespace(s[i - 1]))
  }

  /** The maximal runs of `s` that start at or after `i`, found by looking at every position. */
  function RunsFrom(s: string, i: nat): seq<string>
    requires i <= |s|
    decreases |s| - i
  {
    if i == |s| then []
    else if RunStart(s, i) then [s[i..i + TokenLength(s[i..])]] + RunsFrom(s, i + 1)
    else RunsFrom(s, i + 1)
  }

  /** No run starts inside the token that begins at `i`. */
  lemma {:induction false} RunsSkipToken(s: string, i: nat, j: nat)
    requires i < |s| && i < j <= i + TokenLength(s[i..])
    ensures RunsFrom(s, j) == RunsFrom(s, i + TokenLength(s[i..]))
    decreases i + TokenLength(s[i..]) - j
  {
    var n := TokenLength(s[i..]);
    if j < i + n {
      assert s[j - 1] == s[i..][j - 1 - i];
      assert !RunStart(s, j);
      RunsSkipToken(s, i, j + 1);
    }
  }

  /** Splitting from a position no run straddles yields the runs from there on. */
  lemma {:induction false} SplitFrom(s: string, i: nat)
    requires i <= |s|
    requires i == 0 || i == |s| || IsWhitespace(s[i - 1]) || IsWhitespace(s[i])
    ensures SplitWhitespace(s[i..]) == RunsFrom(s, i)
    decreases |s| - i, 1
  {
    if i == |s| {
      assert s[i..] == [];
    } else if IsWhitespace(s[i]) {
      RunsFromStep(s, i);
      SplitWhite(s, i);
      SplitFrom(s, i + 1);
    } else {
      SplitFromToken(s, i);
    }
  }

  /** The same, from the start of a token. */
  lemma {:induction false} SplitFromToken(s: string, i: nat)
    requires i < |s| && !IsWhitespace(s[i]) && (i == 0 || IsWhitespace(s[i - 1]))
    ensures SplitWhitespace(s[i..]) == RunsFrom(s, i)
    decreases |s| - i, 0
  {
    var n := TokenLength(s[i..]);
    assert s[i..][0] == s[i];
    RunsFromStep(s, i);
    SplitToken(s, i);
    SplitFrom(s, i + n);
    if n > 1 {
      RunsSkipToken(s, i, i + 1);
    }
  }

  lemma RunsFromStep(s: string, i: nat)
    requires i < |s|
    ensures RunsFrom(s, i) ==
      (if RunStart(s, i) then [s[i..i + TokenLength(s[i..])]] else []) + RunsFrom(s, i + 1)
  {
  }

  /** White space at `i` is skipped. */
  lemma SplitWhite(s: string, i: nat)
    requires i < |s| && IsWhitespace(s[i])
    ensures SplitWhitespace(s[i..]) == SplitWhitespace(s[i + 1..])
  {
    assert s[i..][1..] == s[i + 1..];
  }

  /** The token at `i` comes first, and white space or the end follows it. */
  lemma SplitToken(s: string, i: nat)
    requires i < |s| && !IsWhitespace(s[i])
    ensures var n := TokenLength(s[i..]);
      SplitWhitespace(s[i..]) == [s[i..i + n]] + SplitWhitespace(s[i + n..]) &&
      (i + n < |s| ==> IsWhitespace(s[i + n]))
  {
    var t := s[i..];
    var n := TokenLength(t);
    assert t[..n] == s[i..i + n];
    assert t[n..] == s[i + n..];
    if i + n < |s| {
      assert t[n] == s[i + n];
    }
  }

  /** `split_whitespace` yields exactly the maximal runs of non-white-space characters, in order. */
  lemma SplitWhitespaceRuns(s: string)
    ensures SplitWhitespace(s) == RunsFrom(s, 0)
  {
    assert s[0..] == s;
    SplitFrom(s, 0);
  }

  /** Tokens written out with one space between them. */
  function JoinSpaced(ts: seq<string>): string {
    if ts == [] then [] else if |ts| == 1 then ts[0] else ts[0] + " " + JoinSpaced(ts[1..])
  }

  lemma {:induction false} TokenLengthOf(t: string, rest: string)
    requires IsToken(t) && (rest == [] || IsWhitespace(rest[0]))
    ensures TokenLength(t + rest) == |t|
    decreases |t|
  {
    if |t| > 1 {
      assert (t + rest)[1..] == t[1..] + rest;
      TokenLengthOf(t[1..], rest);
    } else {
      assert (t + rest)[1..] == rest;
    }
  }

  /** Splitting tokens written out with single spaces gives the tokens back. */
  lemma {:induction false} SplitJoin(ts: seq<string>)
    requires forall i :: 0 <= i < |ts| ==> IsToken(ts[i])
    ensures SplitWhitespace(JoinSpaced(ts)) == ts
  {
    if |ts| == 1 {
      TokenLengthOf(ts[0], []);
      assert ts[0][..|ts[0]|] == ts[0];
      assert ts[0][|ts[0]|..] == [];
    } else if |ts| > 1 {
      var s := JoinSpaced(ts);
      var rest := " " + JoinSpaced(ts[1..]);
      assert s == ts[0] + rest;
      TokenLengthOf(ts[0], rest);
      assert s[..|ts[0]|] == ts[0];
      assert s[|ts[0]|..] == rest;
      assert rest[1..] == JoinSpaced(ts[1..]);
      SplitJoin(ts[1..]);
    }
  }

  /** Where `c` first occurs in `s`, as `str::find` does. */
  function Find(s: string, c: char): (r: Option<nat>)
    ensures r.Some? ==> r.value < |s| && s[r.value] == c && c !in s[..r.value]
    ensures r.None? ==> c !in s
  {
    if s == [] then None
    else if s[0] == c then Some(0)
    else match Find(s[1..], c)
      case None => None
      case Some(k) => assert s[1..][..k] == s[1..k + 1]; Some(k + 1)
  }

  function DigitsValue(s: string): nat
    requires forall i :: 0 <= i < |s| ==> '0' <= s[i] <= '9'
  {
    if s == [] then 0 else 10 * DigitsValue(s[..|s| - 1]) + (s[|s| - 1] - '0') as nat
  }

  const USIZE_LIMIT: nat := 0x1_0000_0000_0000_0000

  /** `s` without the one `+` sign `from_str` allows in front. */
  function Unsigned(s: string): string {
    if s != [] && s[0] == '+' then s[1..] else s
  }

  /** One or more decimal digits. */
  predicate IsDecimal(d: string) {
    d != [] && forall i :: 0 <= i < |d| ==> '0' <= d[i] <= '9'
  }

  /**
   * `usize::from_str` on a 64-bit target: an optional `+`, then one or
   * more decimal digits whose value fits in 64 bits.
   */
  function ParseUsize(s: string): (r: Option<nat>)
    ensures r.Some? ==> r.value < USIZE_LIMIT
    ensures r.Some? <==> IsDecimal(Unsigned(s)) && DigitsValue(Unsigned(s)) < USIZE_LIMIT
    ensures r.Some? ==> r.value == DigitsValue(Unsigned(s))
  {
    var digits := Unsigned(s);
    if !IsDecimal(digits) || DigitsValue(digits) >= USIZE_LIMIT then None
    else Some(DigitsValue(digits))
  }

  /** The decimal digits of `n`. */
  function ShowNat(n: nat): (s: string)
    ensures s != [] && forall i :: 0 <= i < |s| ==> '0' <= s[i] <= '9'
  {
    if n < 10 then [(n + '0' as nat) as char]
    else ShowNat(n / 10) + [(n % 10 + '0' as nat) as char]
  }

  lemma {:induction false} ShowNatValue(n: nat)
    ensures DigitsValue(ShowNat(n)) == n
  {
    if n >= 10 {
      var s := ShowNat(n);
      assert s[..|s| - 1] == ShowNat(n / 10);
      ShowNatValue(n / 10);
    }
  }

  /** An index written in decimal reads back as itself. */
  lemma ParseShowUsize(n: nat)
    requires n < USIZE_LIMIT
    ensures ParseUsize(ShowNat(n)) == Some(n)
  {
    ShowNatValue(n);
  }

  /** `nan` in any mix of upper and lower case (`to_lowercase() == "nan"`). */
  predicate IsNanText(s: string) {
    |s| == 3 && (s[0] == 'n' || s[0] == 'N') && (s[1] == 'a' || s[1] == 'A') &&
    (s[2] == 'n' || s[2] == 'N')
  }

  /**
   * Lines 124-134: the index and value of one `index:value` token.  An
   * index at or past `size` fails too, as the assignment at line 136 would.
   */
  function ParsePair<F>(t: string, size: nat, parse: string -> Option<F>): (r: Option<(nat, F)>)
    ensures r.Some? ==> r.value.0 < size
    ensures r.Some? <==>
      (Find(t, ':').Some? &&
       ParseUsize(t[..Find(t, ':').value]).Some? &&
       ParseUsize(t[..Find(t, ':').value]).value < size &&
       parse(if IsNanText(t[Find(t, ':').value + 1..]) then "0" else t[Find(t, ':').value + 1..]).Some?)
    ensures r.Some? ==>
      r.value == (ParseUsize(t[..Find(t, ':').value]).value,
                  parse(if IsNanText(t[Find(t, ':').value + 1..]) then "0" else t[Find(t, ':').value + 1..]).value)
  {
    match Find(t, ':')
    case None => None
    case Some(sep) =>
      var index := ParseUsize(t[..sep]);
      var text := t[sep + 1..];
      var value := if IsNanText(text) then parse("0") else parse(text);
      if index.None? || value.None? || index.value >= size then None
      else Some((index.value, value.value))
  }

  /** The pairs of all tokens, or `None` when any of them fails. */
  function ParsePairs<F>(ts: seq<string>, size: nat, parse: string -> Option<F>): (r: Option<seq<(nat, F)>>)
    ensures r.Some? ==>
      (|r.value| == |ts| &&
       forall j :: 0 <= j < |ts| ==> ParsePair(ts[j], size, parse) == Some(r.value[j]))
    ensures r.None? <==> exists j :: 0 <= j < |ts| && ParsePair(ts[j], size, parse).None?
  {
    if ts == [] then Some([])
    else
      var front := ts[..|ts| - 1];
      assert forall j :: 0 <= j < |front| ==> front[j] == ts[j];
      match ParsePairs(front, size, parse)
      case None => None
      case Some(ps) =>
        match ParsePair(ts[|ts| - 1], size, parse)
        case None => None
        case Some(pr) => Some(ps + [pr])
  }

  /** Tokens that each parse give exactly their pairs, in order. */
  lemma {:induction false} ParsePairsOf<F>(ts: seq<string>, ps: seq<(nat, F)>, size: nat, parse: string -> Option<F>)
    requires |ts| == |ps|
    requires forall j :: 0 <= j < |ts| ==> ParsePair(ts[j], size, parse) == Some(ps[j])
    ensures ParsePairs(ts, size, parse) == Some(ps)
  {
    if ts != [] {
      var n := |ts| - 1;
      ParsePairsOf(ts[..n], ps[..n], size, parse);
      FrontLast(ps);
    }
  }

  lemma FrontLast<T>(s: seq<T>)
    requires s != []
    ensures s[..|s| - 1] + [s[|s| - 1]] == s
  {
  }

  /** The value the last pair for `p` sets, or `d` when no pair sets `p`. */
  function LastValue<F>(ps: seq<(nat, F)>, p: int, d: F): F {
    if ps == [] then d
    else if ps[|ps| - 1].0 == p then ps[|ps| - 1].1
    else LastValue(ps[..|ps| - 1], p, d)
  }

  lemma LastValueSnoc<F>(ps: seq<(nat, F)>, x: (nat, F), p: int, d: F)
    ensures LastValue(ps + [x], p, d) == if x.0 == p then x.1 else LastValue(ps, p, d)
  {
    assert (ps + [x])[..|ps|] == ps;
  }

  /** An index no pair names keeps the default `d`. */
  lemma {:induction false} LastValueUnset<F>(ps: seq<(nat, F)>, p: int, d: F)
    requires forall j :: 0 <= j < |ps| ==> ps[j].0 != p
    ensures LastValue(ps, p, d) == d
  {
    if ps != [] {
      LastValueUnset(ps[..|ps| - 1], p, d);
    }
  }

  /** The last pair naming an index decides its value: a later duplicate wins. */
  lemma {:induction false} LastValueWins<F>(ps: seq<(nat, F)>, j: nat, d: F)
    requires j < |ps|
    requires forall k :: j < k < |ps| ==> ps[k].0 != ps[j].0
    ensures LastValue(ps, ps[j].0, d) == ps[j].1
  {
    if j < |ps| - 1 {
      var front := ps[..|ps| - 1];
      assert front[j] == ps[j];
      LastValueWins(front, j, d);
    }
  }

  /** Lines 115-121: 1 when the first token is `positive`, -1 otherwise. */
  function Label(first: string, positive: string): (l: int)
    ensures l == 1 <==> first == positive
    ensures l == -1 <==> first != positive
  {
    if first == positive then 1 else -1
  }

  /**
   * Lines 102-139 as a definition: the label from the first token and,
   * at every position below `size`, the value of the last pair naming it
   * or `missingVal`.  A blank line (no first token) fails.
   */
  function ParseOneLine<F>(raw: string, missingVal: F, size: nat, positive: string,
                           parse: string -> Option<F>): Option<LabeledData<F>>
  {
    ParseTokens(SplitWhitespace(raw), missingVal, size, positive, parse)
  }

  /** `ParseOneLine` once the line is split into tokens. */
  function ParseTokens<F>(ts: seq<string>, missingVal: F, size: nat, positive: string,
                          parse: string -> Option<F>): Option<LabeledData<F>>
  {
    if ts == [] then None
    else match ParsePairs(ts[1..], size, parse)
      case None => None
      case Some(ps) =>
        Some(LabeledData(Filled(ps, size, missingVal), Label(ts[0], positive)))
  }

  /** A vector of `size` positions, each holding what the pairs last set there. */
  function Filled<F>(ps: seq<(nat, F)>, size: nat, d: F): (v: seq<F>)
    ensures |v| == size && forall p :: 0 <= p < size ==> v[p] == LastValue(ps, p, d)
  {
    seq(size, p => LastValue(ps, p, d))
  }

  /**
   * Lines 102-139: fill a vector of `size` copies of `missingVal` token by
   * token, each `index:value` overwriting its position.
   */
  method ParseLibsvmOneLine<F>(raw: string, missingVal: F, size: nat, positive: string,
                               parse: string -> Option<F>) returns (r: Option<LabeledData<F>>)
    ensures r == ParseOneLine(raw, missingVal, size, positive, parse)
    ensures r.None? <==>
      (SplitWhitespace(raw) == [] ||
       exists j :: 1 <= j < |SplitWhitespace(raw)| && ParsePair(SplitWhitespace(raw)[j], size, parse).None?)
    ensures r.Some? ==>
      (|r.value.features| == size && r.value.labelValue == Label(SplitWhitespace(raw)[0], positive))
  {
    var numbers := SplitWhitespace(raw);
    if numbers == [] {
      return None;
    }
    var labelValue := Label(numbers[0], positive);
    var feature := seq(size, _ => missingVal);
    ghost var pairs := numbers[1..];
    ghost var ps: seq<(nat, F)> := [];
    var i := 1;
    while i < |numbers|
      invariant 1 <= i <= |numbers|
      invariant ParsePairs(pairs[..i - 1], size, parse) == Some(ps)
      invariant |feature| == size
      invariant forall p :: 0 <= p < size ==> feature[p] == LastValue(ps, p, missingVal)
    {
      var pair := ParsePair(numbers[i], size, parse);
      if pair.None? {
        assert pairs[i - 1] == numbers[i];
        return None;
      }
      ParsePairsSnoc(pairs, i - 1, size, parse);
      var (index, value) := pair.value;
      feature := feature[index := value];
      forall p | 0 <= p < size
        ensures feature[p] == LastValue(ps + [(index, value)], p, missingVal)
      {
        LastValueSnoc(ps, (index, value), p, missingVal);
      }
      ps := ps + [(index, value)];
      i := i + 1;
    }
    assert pairs[..i - 1] == pairs;
    r := Some(LabeledData(feature, labelValue));
    assert feature == Filled(ps, size, missingVal);
  }

  lemma ParsePairsSnoc<F>(ts: seq<string>, i: nat, size: nat, parse: string -> Option<F>)
    requires i < |ts| && ParsePairs(ts[..i], size, parse).Some? && ParsePair(ts[i], size, parse).Some?
    ensures ParsePairs(ts[..i + 1], size, parse) ==
      Some(ParsePairs(ts[..i], size, parse).value + [ParsePair(ts[i], size, parse).value])
  {
    assert ts[..i + 1][..i] == ts[..i];
  }

  /** All the values in order, or `None` when any of them is missing. */
  function Collect<T>(os: seq<Option<T>>): (r: Option<seq<T>>)
    ensures r.Some? ==> |r.value| == |os| && forall i :: 0 <= i < |os| ==> os[i] == Some(r.value[i])
    ensures r.None? <==> exists i :: 0 <= i < |os| && os[i].None?
  {
    if os == [] then Some([])
    else
      match os[0]
      case None => None
      case Some(d) =>
        assert forall i :: 1 <= i < |os| ==> os[i] == os[1..][i - 1];
        match Collect(os[1..])
        case None => None
        case Some(ds) => Some([d] + ds)
  }

  /**
   * Lines 141-156: every line parsed in order, or `None` when any line
   * fails (a panic in one of the parallel workers).
   */
  function ParseLibsvm<F>(rawStrings: seq<string>, missingVal: F, size: nat, positive: string,
                          parse: string -> Option<F>): (r: Option<seq<LabeledData<F>>>)
    ensures r.Some? ==>
      (|r.value| == |rawStrings| && forall i :: 0 <= i < |rawStrings| ==>
         ParseOneLine(rawStrings[i], missingVal, size, positive, parse) == Some(r.value[i]))
    ensures r.None? <==> (exists i :: 0 <= i < |rawStrings| &&
                           ParseOneLine(rawStrings[i], missingVal, size, positive, parse).None?)
  {
    var lines := seq(|rawStrings|, i requires 0 <= i < |rawStrings| => ParseOneLine(rawStrings[i], missingVal, size, positive, parse));
    Collect(lines)
  }

  /** `i32::from_str`: an optional sign, then one or more decimal digits. */
  function ParseInt(s: string): Option<int> {
    if s != [] && s[0] == '-' then
      match ParseUsize(s[1..])
      case Some(n) => if s[1] == '+' || n > 0x8000_0000 then None else Some(-(n as int))
      case None => None
    else
      match ParseUsize(s)
      case Some(n) => if n >= 0x8000_0000 then None else Some(n)
      case None => None
  }

  /** Lines 163-170: a negative example with three of six features set. */
  method TestParseLibsvmOneLine() returns (r: Option<LabeledData<int>>)
    ensures r == Some(LabeledData([0, 2, 0, 5, 10, 0], -1))
  {
    ExampleTokens();
    ExampleLine();
    r := ParseLibsvmOneLine("0 1:2 3:5 4:10", 0, 6, "1", ParseInt);
  }

  lemma ExampleLine()
    ensures ParseTokens(["0", "1:2", "3:5", "4:10"], 0, 6, "1", ParseInt) == Some(LabeledData([0, 2, 0, 5, 10, 0], -1))
  {
    var ts := ["0", "1:2", "3:5", "4:10"];
    assert ts[1..] == ["1:2", "3:5", "4:10"];
    ExamplePairs();
    var ps: seq<(nat, int)> := [(1, 2), (3, 5), (4, 10)];
    ExampleFeatures();
    assert Filled(ps, 6, 0) == [0, 2, 0, 5, 10, 0];
    assert "0"[0] != "1"[0];
    assert Label(ts[0], "1") == -1;
  }

  lemma ExampleTokens()
    ensures SplitWhitespace("0 1:2 3:5 4:10") == ["0", "1:2", "3:5", "4:10"]
  {
    var ts := ["0", "1:2", "3:5", "4:10"];
    assert JoinSpaced(ts) == "0 1:2 3:5 4:10" by {
      assert JoinSpaced(ts[3..]) == "4:10";
      assert JoinSpaced(ts[2..]) == "3:5 4:10";
      assert JoinSpaced(ts[1..]) == "1:2 3:5 4:10";
    }
    SplitJoin(ts);
  }

  lemma ExamplePairs()
    ensures ParsePairs(["1:2", "3:5", "4:10"], 6, ParseInt) == Some([(1, 2), (3, 5), (4, 10)])
  {
    ExamplePair("1:2", 1, 2);
    ExamplePair("3:5", 3, 5);
    ExamplePair("4:10", 4, 10);
    ParsePairsOf(["1:2", "3:5", "4:10"], [(1, 2), (3, 5), (4, 10)], 6, ParseInt);
  }

  lemma ExamplePair(t: string, i: nat, v: nat)
    requires (t, i, v) in {("1:2", 1, 2), ("3:5", 3, 5), ("4:10", 4, 10)}
    ensures ParsePair(t, 6, ParseInt) == Some((i, v))
  {
    if t == "4:10" {
      ExamplePairTen();
    } else {
      ExamplePairDigit(t, i, v);
    }
  }

  lemma ExamplePairDigit(t: string, i: nat, v: nat)
    requires (t, i, v) in {("1:2", 1, 2), ("3:5", 3, 5)}
    ensures ParsePair(t, 6, ParseInt) == Some((i, v))
  {
    DigitPair(t[0], t[2]);
    assert t == [t[0], ':', t[2]];
  }

  /** `a:b` for two digits `a` below the length 6 and `b`. */
  lemma DigitPair(a: char, b: char)
    requires '0' <= a <= '5' && '0' <= b <= '9'
    ensures ParsePair([a, ':', b], 6, ParseInt) == Some(((a - '0') as nat, (b - '0') as int))
  {
    var t := [a, ':', b];
    assert Find(t, ':') == Some(1);
    assert t[..1] == [a];
    DigitText(a);
    assert t[2..] == [b];
    DigitText(b);
  }

  lemma ExamplePairTen()
    ensures ParsePair("4:10", 6, ParseInt) == Some((4, 10))
  {
    var t := "4:10";
    assert Find(t, ':') == Some(1);
    assert t[..1] == [t[0]];
    DigitText(t[0]);
    assert t[2..] == "10";
    assert "10"[..1] == "1";
    DigitText('1');
    assert ParseUsize("10") == Some(10);
  }

  lemma DigitText(c: char)
    requires '0' <= c <= '9'
    ensures DigitsValue([c]) == (c - '0') as nat
    ensures ParseUsize([c]) == Some((c - '0') as nat)
  {
    assert [c][..0] == [];
  }

  lemma ExampleFeatures()
    ensures forall k :: 0 <= k < 6 ==> LastValue([(1, 2), (3, 5), (4, 10)], k, 0) == [0, 2, 0, 5, 10, 0][k]
  {
    var ps: seq<(nat, int)> := [(1, 2), (3, 5), (4, 10)];
    LastValueUnset(ps, 0, 0);
    LastValueUnset(ps, 2, 0);
    LastValueUnset(ps, 5, 0);
    LastValueWins(ps, 0, 0);
    LastValueWins(ps, 1, 0);
    LastValueWins(ps, 2, 0);
  }
}
