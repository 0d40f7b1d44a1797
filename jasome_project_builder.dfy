/**
 * The Jasome importer's project builder: it turns Jasome's packages and classes into nodes
 * and hands each node, with the path of its parent, to CodeCharta's project builder.
 * `ProjectBuilder.insertByPath`, `PathFactory.fromFileSystemPath` and `Path.parent` are not
 * part of this model: the builder records its insertions in order, each with the expression
 * that computes its parent path.
 */
module JasomeImporter {
  import opened Wrappers
  import opened Strings

  /**
   * The path handed to `insertByPath`, kept as the expression that computes it: the path of
   * a package name (`createPathByPackageName`), or that path's `parent`.
   */
  datatype ParentPath = PackagePath(packageName: string) | ParentOfPackagePath(packageName: string)

  datatype JasomeMetric = JasomeMetric(name: Option<string>, value: Option<string>)
  datatype JasomeClass = JasomeClass(name: Option<string>, metrics: Option<seq<JasomeMetric>>)
  datatype JasomePackage = JasomePackage(name: Option<string>, metrics: Option<seq<JasomeMetric>>, classes: Option<seq<JasomeClass>>)
  datatype JasomeProject = JasomeProject(packages: Option<seq<JasomePackage>>)

  datatype NodeType = PackageNode | ClassNode

  /** A node for the project builder; `BigDecimal` values are modelled as reals. */
  datatype MutableNode = MutableNode(name: string, nodeType: NodeType, attributes: map<string, real>)

  /** One call of `insertByPath`. */
  datatype Insertion = Insertion(parentPath: ParentPath, node: MutableNode)

  // ---------------------------------------------------------------- strings

  /** Kotlin's `Char.isWhitespace()`: Java's whitespace characters and Unicode space separators. */
  predicate IsWhitespace(c: char) {
    var x := c as int;
    (9 <= x <= 13) || (0x1C <= x <= 0x20) || x == 0xA0 || x == 0x1680 || (0x2000 <= x <= 0x200A)
    || x == 0x2028 || x == 0x2029 || x == 0x202F || x == 0x205F || x == 0x3000
  }

  /** `isNullOrBlank()`: `null`, empty, or whitespace only. */
  predicate IsNullOrBlank(s: Option<string>) {
    s.None? || forall i :: 0 <= i < |s.value| ==> IsWhitespace(s.value[i])
  }

  /**
   * `substringAfterLast(c)`: what follows the last `c`, or the whole string when there is
   * none. The result is the longest suffix free of `c`.
   */
  function SubstringAfterLast(s: string, c: char): (r: string)
    ensures |r| <= |s| && s[|s| - |r|..] == r
    ensures c !in r
    ensures |r| < |s| ==> s[|s| - |r| - 1] == c
  {
    if s == [] then []
    else if s[|s| - 1] == c then []
    else
      var r := SubstringAfterLast(s[..|s| - 1], c);
      assert s[..|s| - 1][|s| - 1 - |r|..] == s[|s| - 1 - |r|..|s| - 1];
      r + [s[|s| - 1]]
  }

  /** A name without the separator is its own last segment. */
  lemma SubstringAfterLastWithout(s: string, c: char)
    requires c !in s
    ensures SubstringAfterLast(s, c) == s
  {
  }

  /** `replace(from, to)` on characters. */
  function ReplaceChar(s: string, from: char, to: char): (r: string)
    ensures |r| == |s|
    ensures forall i :: 0 <= i < |s| ==> r[i] == if s[i] == from then to else s[i]
  {
    seq(|s|, i requires 0 <= i < |s| => if s[i] == from then to else s[i])
  }

  // ---------------------------------------------------------------- decimals

  function Pow10(n: nat): (p: nat)
    ensures p >= 1
  {
    if n == 0 then 1 else 10 * Pow10(n - 1)
  }

  /** `x` times ten to the power `e`. */
  function Scale(x: real, e: int): real {
    if e >= 0 then x * Pow10(e) as real else x / Pow10(-e) as real
  }

  /** The significand `digits[.digits]` or `.digits`: at least one digit, at most one point. */
  function ParseSignificand(s: string): (r: Option<real>)
    ensures r.Some? ==> s != [] && forall i :: 0 <= i < |s| ==> IsDigit(s[i]) || s[i] == '.'
  {
    if '.' !in s then
      if s != [] && AllDigits(s) then Some(DigitsValue(s) as real) else None
    else
      var k := IndexOf(s, '.');
      var whole, fraction := s[..k], s[k + 1..];
      if AllDigits(whole) && AllDigits(fraction) && '.' !in fraction && |whole| + |fraction| > 0 then
        assert forall i :: 0 <= i < |s| ==> i < k || i == k || s[i] == fraction[i - k - 1];
        Some(DecimalValue(whole, fraction))
      else None
  }

  /** The digits after a decimal point: their value over ten to the number of digits. */
  function FractionValue(fraction: string): real
    requires AllDigits(fraction)
  {
    DigitsValue(fraction) as real / Pow10(|fraction|) as real
  }

  /** The number `whole.fraction` writes. */
  function DecimalValue(whole: string, fraction: string): real
    requires AllDigits(whole) && AllDigits(fraction)
  {
    DigitsValue(whole) as real + FractionValue(fraction)
  }

  /** The first position of `c` in `s`. */
  function IndexOf(s: string, c: char): (k: nat)
    requires c in s
    ensures k < |s| && s[k] == c && c !in s[..k]
  {
    if s[0] == c then 0 else 1 + IndexOf(s[1..], c)
  }

  /** An optional sign, then digits. */
  function ParseSignedInt(s: string): (r: Option<int>) {
    if s != [] && (s[0] == '+' || s[0] == '-') then
      var digits := s[1..];
      if digits != [] && AllDigits(digits) then
        Some(if s[0] == '-' then -(DigitsValue(digits) as int) else DigitsValue(digits) as int)
      else None
    else if s != [] && AllDigits(s) then Some(DigitsValue(s) as int)
    else None
  }

  /** The character of an exponent marker. */
  predicate IsExponentMarker(c: char) {
    c == 'e' || c == 'E'
  }

  /** A character `BigDecimal(String)` can accept anywhere in its input. */
  predicate IsNumberChar(c: char) {
    IsDigit(c) || c == '.' || c == '+' || c == '-' || IsExponentMarker(c)
  }

  /**
   * `String.toBigDecimal()` (`new BigDecimal(String)`): an optional sign, a significand,
   * and an optional exponent `e`/`E` with an optional sign; anything else, whitespace
   * included, is a `NumberFormatException`.
   */
  function ParseBigDecimal(s: string): (r: Result<real>)
    ensures r.Ok? ==> s != [] && forall i :: 0 <= i < |s| ==> IsNumberChar(s[i])
  {
    var negative := s != [] && s[0] == '-';
    var unsigned := if s != [] && (s[0] == '+' || s[0] == '-') then s[1..] else s;
    var hasExponent := exists i :: 0 <= i < |unsigned| && IsExponentMarker(unsigned[i]);
    var split := if hasExponent then FirstExponentMarker(unsigned) else |unsigned|;
    var significand := ParseSignificand(unsigned[..split]);
    var exponent := if hasExponent then ParseSignedInt(unsigned[split + 1..]) else Some(0);
    if significand.None? || exponent.None? then Err("NumberFormatException")
    else
      assert forall i :: 0 <= i < |s| ==> IsNumberChar(s[i]) by {
        forall i | 0 <= i < |s| ensures IsNumberChar(s[i]) {
          var offset := if s != [] && (s[0] == '+' || s[0] == '-') then 1 else 0;
          if i >= offset {
            var j := i - offset;
            assert unsigned[j] == s[i];
            if j < split {
              assert unsigned[..split][j] == s[i];
            } else if j > split {
              assert unsigned[split + 1..][j - split - 1] == s[i];
            }
          }
        }
      }
      var magnitude := Scale(significand.value, exponent.value);
      Ok(if negative then -magnitude else magnitude)
  }

  function FirstExponentMarker(s: string): (k: nat)
    requires exists i :: 0 <= i < |s| && IsExponentMarker(s[i])
    ensures k < |s| && IsExponentMarker(s[k])
  {
    if IsExponentMarker(s[0]) then 0
    else
      assert exists i :: 0 <= i < |s[1..]| && IsExponentMarker(s[1..][i]) by {
        var i :| 0 <= i < |s| && IsExponentMarker(s[i]);
        assert s[1..][i - 1] == s[i];
      }
      1 + FirstExponentMarker(s[1..])
  }

  /**
   * `convertMetricValue`: a decimal comma becomes a point and the text is parsed as a
   * `BigDecimal`; a missing value is 0.
   */
  function ConvertMetricValue(value: Option<string>): (r: Result<real>)
    ensures value.None? ==> r == Ok(0.0)
    ensures value.Some? && r.Ok? ==> value.value != [] && forall i :: 0 <= i < |value.value| ==> IsNumberChar(value.value[i]) || value.value[i] == ','
  {
    match value
    case None => Ok(0.0)
    case Some(v) =>
      var r := ParseBigDecimal(ReplaceChar(v, ',', '.'));
      assert r.Ok? ==> forall i :: 0 <= i < |v| ==> IsNumberChar(v[i]) || v[i] == ',' by {
        if r.Ok? {
          forall i | 0 <= i < |v| ensures IsNumberChar(v[i]) || v[i] == ',' {
            assert IsNumberChar(ReplaceChar(v, ',', '.')[i]);
          }
        }
      }
      r
  }

  /** The sign written in front of a number: `-` for a negative one, nothing otherwise. */
  function SignText(negative: bool): string {
    if negative then "-" else ""
  }

  function Signed(negative: bool, x: real): real {
    if negative then -x else x
  }

  /**
   * A number written with a decimal comma, with or without a minus sign (`"1,5"`, `"-1,5"`,
   * `"-0,25"`, `"12,"`), reads as the number `whole.fraction`, negated after a minus.
   */
  lemma DecimalCommaValue(negative: bool, whole: string, fraction: string)
    requires AllDigits(whole) && |whole| > 0 && AllDigits(fraction)
    ensures ConvertMetricValue(Some(SignText(negative) + whole + "," + fraction))
         == Ok(Signed(negative, DecimalValue(whole, fraction)))
  {
    SignedCommaBecomesPoint(negative, whole, fraction);
    PlainDecimal(negative, whole, fraction);
    ConvertPresent(SignText(negative) + whole + "," + fraction);
  }

  /** Only the decimal comma of a signed `w,f` is replaced. */
  lemma SignedCommaBecomesPoint(negative: bool, w: string, fraction: string)
    requires AllDigits(w) && AllDigits(fraction)
    ensures ReplaceChar(SignText(negative) + w + "," + fraction, ',', '.') == SignText(negative) + w + "." + fraction
  {
    CommaBecomesPoint(w, fraction);
    assert SignText(negative) + w + "," + fraction == SignText(negative) + (w + "," + fraction);
    assert SignText(negative) + w + "." + fraction == SignText(negative) + (w + "." + fraction);
    ReplaceCharAppend(SignText(negative), w + "," + fraction, ',', '.');
    assert ReplaceChar(SignText(negative), ',', '.') == SignText(negative);
  }

  /** Whole numbers, the usual Jasome count values, read as themselves: `"12"` is 12 and `"-3"` is -3. */
  lemma IntegerValue(i: int)
    ensures ConvertMetricValue(Some(IntToString(i))) == Ok(i as real)
  {
    var n: nat := if i < 0 then -i else i;
    var digits := NatToString(n);
    assert IntToString(i) == SignText(i < 0) + digits;
    WithoutComma(SignText(i < 0), digits);
    ConvertPresent(IntToString(i));
    DigitsSignificand(n);
    SignedWithoutExponent(i < 0, digits);
  }

  /** A sign followed by digits has no comma to replace. */
  lemma WithoutComma(sign: string, digits: string)
    requires sign == "" || sign == "-"
    requires AllDigits(digits)
    ensures ReplaceChar(sign + digits, ',', '.') == sign + digits
  {
    var v := sign + digits;
    forall k | 0 <= k < |v| ensures v[k] != ',' {
      if k >= |sign| {
        assert v[k] == digits[k - |sign|];
      }
    }
  }

  /** The digits of `n` form a significand whose value is `n`, with no point and no exponent marker. */
  lemma DigitsSignificand(n: nat)
    ensures forall k :: 0 <= k < |NatToString(n)| ==> !IsExponentMarker(NatToString(n)[k])
    ensures ParseSignificand(NatToString(n)) == Some(n as real)
  {
    var digits := NatToString(n);
    NatToStringRoundTrip(n);
    assert forall k :: 0 <= k < |digits| ==> digits[k] != '.';
  }

  lemma ReplaceCharAppend(a: string, b: string, from: char, to: char)
    ensures ReplaceChar(a + b, from, to) == ReplaceChar(a, from, to) + ReplaceChar(b, from, to)
  {
    assert forall k :: 0 <= k < |b| ==> (a + b)[|a| + k] == b[k];
  }

  lemma ConvertPresent(v: string)
    ensures ConvertMetricValue(Some(v)) == ParseBigDecimal(ReplaceChar(v, ',', '.'))
  {
  }

  lemma CommaBecomesPoint(w: string, fraction: string)
    requires AllDigits(w) && AllDigits(fraction)
    ensures ReplaceChar(w + "," + fraction, ',', '.') == w + "." + fraction
  {
    var v := w + "," + fraction;
    assert forall i :: 0 <= i < |w| ==> v[i] == w[i] && IsDigit(w[i]);
    assert forall i :: |w| < i < |v| ==> v[i] == fraction[i - |w| - 1] && IsDigit(fraction[i - |w| - 1]);
  }

  /** `digits.digits`, with or without a minus sign in front, parses to the number it writes. */
  lemma PlainDecimal(negative: bool, w: string, fraction: string)
    requires AllDigits(w) && AllDigits(fraction) && |w| > 0
    ensures ParseBigDecimal(SignText(negative) + w + "." + fraction) == Ok(Signed(negative, DecimalValue(w, fraction)))
  {
    var t := w + "." + fraction;
    assert SignText(negative) + w + "." + fraction == SignText(negative) + t;
    assert t[0] == w[0];
    forall i | 0 <= i < |t| ensures !IsExponentMarker(t[i]) {
      if i < |w| { assert t[i] == w[i]; } else if i > |w| { assert t[i] == fraction[i - |w| - 1]; }
    }
    SignificandOfDecimal(w, fraction);
    SignedWithoutExponent(negative, t);
  }

  /**
   * Text that starts with a digit and has no exponent marker reads as its significand, and
   * after a minus sign as the significand negated.
   */
  lemma SignedWithoutExponent(negative: bool, t: string)
    requires t != [] && IsDigit(t[0])
    requires forall i :: 0 <= i < |t| ==> !IsExponentMarker(t[i])
    requires ParseSignificand(t).Some?
    ensures ParseBigDecimal(SignText(negative) + t) == Ok(Signed(negative, ParseSignificand(t).value))
  {
    var s := SignText(negative) + t;
    var unsigned := if s != [] && (s[0] == '+' || s[0] == '-') then s[1..] else s;
    assert unsigned == t;
    assert t[..|t|] == t;
    assert Scale(ParseSignificand(t).value, 0) == ParseSignificand(t).value;
  }

  /** The significand `digits.digits` is its whole part plus its fraction. */
  lemma SignificandOfDecimal(w: string, fraction: string)
    requires AllDigits(w) && AllDigits(fraction) && |w| > 0
    ensures ParseSignificand(w + "." + fraction) == Some(DecimalValue(w, fraction))
  {
    var t := w + "." + fraction;
    IndexAfterDigits(w, fraction);
    assert t[..|w|] == w && t[|w| + 1..] == fraction;
    assert forall j :: 0 <= j < |fraction| ==> fraction[j] != '.';
  }

  lemma {:induction false} IndexAfterDigits(w: string, fraction: string)
    requires AllDigits(w)
    ensures '.' in w + "." + fraction && IndexOf(w + "." + fraction, '.') == |w|
  {
    var t := w + "." + fraction;
    assert t[|w|] == '.';
    if w != [] {
      assert t[1..] == w[1..] + "." + fraction;
      IndexAfterDigits(w[1..], fraction);
    }
  }

  /** Text that is not a number fails to parse; for instance a value with a space in it. */
  lemma NotANumber(value: string)
    requires exists i :: 0 <= i < |value| && value[i] == ' '
    ensures ConvertMetricValue(Some(value)).Err?
  {
  }

  // ---------------------------------------------------------------- nodes

  /** The filter of `createNode`: a metric is kept when both its name and its value are non-blank. */
  predicate Kept(m: JasomeMetric) {
    !IsNullOrBlank(m.name) && !IsNullOrBlank(m.value)
  }

  /** The names of the kept metrics. */
  function KeptNames(ms: seq<JasomeMetric>): set<string> {
    set i | 0 <= i < |ms| && Kept(ms[i]) :: ms[i].name.value
  }

  lemma KeptNamesCons(ms: seq<JasomeMetric>)
    requires ms != []
    ensures KeptNames(ms) == (if Kept(ms[0]) then {ms[0].name.value} else {}) + KeptNames(ms[1..])
  {
    var rest := ms[1..];
    forall k | k in KeptNames(ms) ensures k in (if Kept(ms[0]) then {ms[0].name.value} else {}) + KeptNames(rest) {
      var i :| 0 <= i < |ms| && Kept(ms[i]) && ms[i].name.value == k;
      if i > 0 { assert rest[i - 1] == ms[i]; }
    }
    forall k | k in KeptNames(rest) ensures k in KeptNames(ms) {
      var i :| 0 <= i < |rest| && Kept(rest[i]) && rest[i].name.value == k;
      assert ms[i + 1] == rest[i];
    }
  }

  /**
   * `filter` then `associateBy` over the rest of the list into `acc`: each kept metric's value
   * is converted and put under its name, a later metric replacing an earlier one; a value
   * that does not convert aborts.
   */
  function Associate(ms: seq<JasomeMetric>, acc: map<string, real>): (r: Result<map<string, real>>)
    ensures r.Ok? <==> forall i :: 0 <= i < |ms| && Kept(ms[i]) ==> ConvertMetricValue(ms[i].value).Ok?
    ensures r.Ok? ==> r.value.Keys == acc.Keys + KeptNames(ms)
    decreases |ms|
  {
    if ms == [] then Ok(acc)
    else
      KeptNamesCons(ms);
      assert forall i :: 1 <= i < |ms| ==> ms[i] == ms[1..][i - 1];
      if Kept(ms[0]) then
        match ConvertMetricValue(ms[0].value)
        case Err(e) => Err(e)
        case Ok(v) => Associate(ms[1..], acc[ms[0].name.value := v])
      else
        Associate(ms[1..], acc)
  }

  /** Metric `i` is kept, has name `k`, and no later kept metric has that name. */
  predicate LastWithName(ms: seq<JasomeMetric>, i: int, k: string) {
    0 <= i < |ms| && Kept(ms[i]) && ms[i].name.value == k
    && forall j :: i < j < |ms| && Kept(ms[j]) ==> ms[j].name.value != k
  }

  /**
   * Every value written comes from a kept metric of that name: the last one, as no later
   * kept metric carries the name.
   */
  lemma {:induction false} AssociateValues(ms: seq<JasomeMetric>, acc: map<string, real>, k: string)
    requires Associate(ms, acc).Ok? && k in KeptNames(ms)
    ensures exists i :: LastWithName(ms, i, k) && ConvertMetricValue(ms[i].value) == Ok(Associate(ms, acc).value[k])
    decreases |ms|
  {
    KeptNamesCons(ms);
    var rest := ms[1..];
    var next := AssociateUnfold(ms, acc);
    if k in KeptNames(rest) {
      AssociateValues(rest, next, k);
      var i :| LastWithName(rest, i, k) && ConvertMetricValue(rest[i].value) == Ok(Associate(rest, next).value[k]);
      LastWithNameCons(ms, i, k);
    } else {
      AssociateKeeps(rest, next, k);
      LastWithNameFirst(ms, k);
    }
  }

  /** One step of `Associate`: the first metric's entry, then the rest. */
  lemma AssociateUnfold(ms: seq<JasomeMetric>, acc: map<string, real>) returns (next: map<string, real>)
    requires ms != [] && Associate(ms, acc).Ok?
    ensures Kept(ms[0]) ==> ConvertMetricValue(ms[0].value).Ok? && next == acc[ms[0].name.value := ConvertMetricValue(ms[0].value).value]
    ensures !Kept(ms[0]) ==> next == acc
    ensures Associate(ms, acc) == Associate(ms[1..], next)
  {
    if Kept(ms[0]) {
      assert ConvertMetricValue(ms[0].value).Ok?;
      next := acc[ms[0].name.value := ConvertMetricValue(ms[0].value).value];
    } else {
      next := acc;
    }
  }

  lemma LastWithNameCons(ms: seq<JasomeMetric>, i: int, k: string)
    requires ms != [] && LastWithName(ms[1..], i, k)
    ensures LastWithName(ms, i + 1, k) && ms[i + 1] == ms[1..][i]
  {
    assert forall j :: i + 1 < j < |ms| ==> ms[j] == ms[1..][j - 1];
  }

  lemma LastWithNameFirst(ms: seq<JasomeMetric>, k: string)
    requires ms != [] && Kept(ms[0]) && ms[0].name.value == k
    requires k !in KeptNames(ms[1..])
    ensures LastWithName(ms, 0, k)
  {
    forall j | 0 < j < |ms| && Kept(ms[j])
      ensures ms[j].name.value != k
    {
      assert ms[1..][j - 1] == ms[j];
    }
  }

  /** A name no later metric carries keeps the value it had. */
  lemma {:induction false} AssociateKeeps(ms: seq<JasomeMetric>, acc: map<string, real>, k: string)
    requires Associate(ms, acc).Ok? && k in acc && k !in KeptNames(ms)
    ensures Associate(ms, acc).value[k] == acc[k]
    decreases |ms|
  {
    if ms != [] {
      KeptNamesCons(ms);
      var next := if Kept(ms[0]) then acc[ms[0].name.value := ConvertMetricValue(ms[0].value).value] else acc;
      AssociateKeeps(ms[1..], next, k);
    }
  }

  /** The attributes of a node: from its metrics, or empty when it has no metric list. */
  function Attributes(metrics: Option<seq<JasomeMetric>>): (r: Result<map<string, real>>)
    ensures metrics.None? ==> r == Ok(map[])
    ensures metrics.Some? && r.Ok? ==> r.value.Keys == KeptNames(metrics.value)
  {
    match metrics
    case None => Ok(map[])
    case Some(ms) => Associate(ms, map[])
  }

  /** `createNode(package)`: named by the last `.`-segment of the package name. */
  function CreatePackageNode(p: JasomePackage): (r: Result<MutableNode>)
    requires p.name.Some?
    ensures r.Ok? ==> r.value.nodeType == PackageNode && '.' !in r.value.name
    ensures r.Ok? ==> r.value.name == SubstringAfterLast(p.name.value, '.')
    ensures r.Ok? <==> Attributes(p.metrics).Ok?
  {
    match Attributes(p.metrics)
    case Err(e) => Err(e)
    case Ok(attributes) => Ok(MutableNode(SubstringAfterLast(p.name.value, '.'), PackageNode, attributes))
  }

  /** `createNode(class)`: named by the class name, or `""` when it has none. */
  function CreateClassNode(c: JasomeClass): (r: Result<MutableNode>)
    ensures r.Ok? ==> r.value.nodeType == ClassNode && r.value.name == c.name.GetOr("")
    ensures r.Ok? <==> Attributes(c.metrics).Ok?
  {
    match Attributes(c.metrics)
    case Err(e) => Err(e)
    case Ok(attributes) => Ok(MutableNode(c.name.GetOr(""), ClassNode, attributes))
  }

  // ---------------------------------------------------------------- effects of the `add` overloads

  /** The insertions a call makes, in order, and the exception that ended it, if any. */
  datatype Effect = Effect(inserted: seq<Insertion>, error: Option<string>)

  const NoEffect := Effect([], None)

  /** Running one call after another: the second runs only when the first did not throw. */
  function Then(a: Effect, b: Effect): Effect {
    if a.error.Some? then a else Effect(a.inserted + b.inserted, b.error)
  }

  /**
   * A `forEach` whose body has the effect `step`: the steps run in order until one throws.
   * It is defined from the last element, so that a loop's prefix `xs[..i + 1]` unfolds into
   * `xs[..i]` and one more step.
   */
  function ForEach<T>(xs: seq<T>, step: T -> Effect): Effect
    decreases |xs|
  {
    if xs == [] then NoEffect else Then(ForEach(xs[..|xs| - 1], step), step(xs[|xs| - 1]))
  }

  /** One more step on a prefix that has not thrown. */
  lemma ForEachStep<T>(xs: seq<T>, step: T -> Effect, i: nat)
    requires i < |xs| && ForEach(xs[..i], step).error.None?
    ensures ForEach(xs[..i + 1], step).inserted == ForEach(xs[..i], step).inserted + step(xs[i]).inserted
    ensures ForEach(xs[..i + 1], step).error == step(xs[i]).error
  {
    assert xs[..i + 1][..i] == xs[..i];
  }

  /** Once a step has thrown, the steps after it do not run. */
  lemma {:induction false} ForEachThrown<T>(xs: seq<T>, step: T -> Effect, i: nat)
    requires i <= |xs| && ForEach(xs[..i], step).error.Some?
    ensures ForEach(xs, step) == ForEach(xs[..i], step)
    decreases |xs|
  {
    if i < |xs| {
      var init := xs[..|xs| - 1];
      assert init[..i] == xs[..i];
      ForEachThrown(init, step, i);
    } else {
      assert xs[..i] == xs;
    }
  }

  /**
   * The first step that throws ends the loop: what the loop inserts is what the steps before
   * it inserted and what that step inserted before throwing, and its error is the loop's.
   */
  lemma ForEachStopsAtFirstError<T>(xs: seq<T>, step: T -> Effect)
    ensures forall i :: 0 <= i < |xs| && ForEach(xs[..i], step).error.None? && step(xs[i]).error.Some? ==>
      && ForEach(xs, step).inserted == ForEach(xs[..i], step).inserted + step(xs[i]).inserted
      && ForEach(xs, step).error == step(xs[i]).error
  {
    forall i | 0 <= i < |xs| && ForEach(xs[..i], step).error.None? && step(xs[i]).error.Some?
      ensures ForEach(xs, step).inserted == ForEach(xs[..i], step).inserted + step(xs[i]).inserted
      ensures ForEach(xs, step).error == step(xs[i]).error
    {
      ForEachStep(xs, step, i);
      ForEachThrown(xs, step, i + 1);
    }
  }

  /** Steps that each insert one node and do not throw insert those nodes, in order. */
  lemma {:induction false} ForEachOfSingles<T>(xs: seq<T>, step: T -> Effect)
    requires forall i :: 0 <= i < |xs| ==> step(xs[i]).error.None? && |step(xs[i]).inserted| == 1
    ensures ForEach(xs, step).error.None?
    ensures |ForEach(xs, step).inserted| == |xs|
    ensures forall i :: 0 <= i < |xs| ==> ForEach(xs, step).inserted[i] == step(xs[i]).inserted[0]
    decreases |xs|
  {
    if xs != [] {
      var init := xs[..|xs| - 1];
      assert forall i :: 0 <= i < |init| ==> init[i] == xs[i];
      ForEachOfSingles(init, step);
    }
  }

  /** `add(packageName, class)`: the class's node at the path of the package name. */
  function ClassEffect(packageName: string, c: JasomeClass): (e: Effect)
    ensures e.error.None? <==> CreateClassNode(c).Ok?
    ensures e.error.None? ==> e.inserted == [Insertion(PackagePath(packageName), CreateClassNode(c).value)]
    ensures e.error.Some? ==> e.inserted == []
  {
    match CreateClassNode(c)
    case Err(e) => Effect([], Some(e))
    case Ok(node) => Effect([Insertion(PackagePath(packageName), node)], None)
  }

  /** The body of the class loop of `add(package)`. */
  function AddClassStep(packageName: string): JasomeClass -> Effect {
    c => ClassEffect(packageName, c)
  }

  /** The first part of `add(package)`: the package's own node, when its name is not blank. */
  function OwnNodeEffect(p: JasomePackage): Effect {
    if IsNullOrBlank(p.name) then NoEffect
    else match CreatePackageNode(p)
      case Err(e) => Effect([], Some(e))
      case Ok(node) => Effect([Insertion(ParentOfPackagePath(p.name.value), node)], None)
  }

  /**
   * `add(package)`: a package with a non-blank name first gets its node, at the parent of
   * the path of its name; then its classes are added in order under its name (`""` when it
   * has none).
   */
  function PackageEffect(p: JasomePackage): (e: Effect)
    ensures IsNullOrBlank(p.name) ==> e == ForEach(p.classes.GetOr([]), AddClassStep(p.name.GetOr("")))
    ensures !IsNullOrBlank(p.name) && CreatePackageNode(p).Err? ==> e.inserted == [] && e.error.Some?
    ensures !IsNullOrBlank(p.name) && CreatePackageNode(p).Ok? ==>
      |e.inserted| >= 1 && e.inserted[0] == Insertion(ParentOfPackagePath(p.name.value), CreatePackageNode(p).value)
  {
    Then(OwnNodeEffect(p), ForEach(p.classes.GetOr([]), AddClassStep(p.name.GetOr(""))))
  }

  /** The body of the package loop of `add(project)`. */
  function AddPackageStep(): JasomePackage -> Effect {
    p => PackageEffect(p)
  }

  /** `add(project)`: its packages in order until one throws; a missing package list adds nothing. */
  function ProjectEffect(project: JasomeProject): (e: Effect)
    ensures project.packages.GetOr([]) == [] ==> e == NoEffect
    ensures var ps := project.packages.GetOr([]);
      forall i :: 0 <= i < |ps| && ForEach(ps[..i], AddPackageStep()).error.None? && PackageEffect(ps[i]).error.Some? ==>
        && e.inserted == ForEach(ps[..i], AddPackageStep()).inserted + PackageEffect(ps[i]).inserted
        && e.error == PackageEffect(ps[i]).error
  {
    var ps := project.packages.GetOr([]);
    ForEachStopsAtFirstError(ps, AddPackageStep());
    ForEach(ps, AddPackageStep())
  }

  /**
   * A package whose name is null or blank inserts no package node: everything it inserts is
   * a class node under its name (`""` when it has none).
   */
  lemma BlankPackageAddsOnlyClasses(p: JasomePackage)
    requires IsNullOrBlank(p.name)
    ensures forall ins :: ins in PackageEffect(p).inserted ==>
      ins.node.nodeType == ClassNode && ins.parentPath == PackagePath(p.name.GetOr(""))
  {
    ClassesUnderPackage(p.name.GetOr(""), p.classes.GetOr([]));
  }

  lemma {:induction false} ClassesUnderPackage(packageName: string, classes: seq<JasomeClass>)
    ensures forall ins :: ins in ForEach(classes, AddClassStep(packageName)).inserted ==>
      ins.node.nodeType == ClassNode && ins.parentPath == PackagePath(packageName)
    decreases |classes|
  {
    if classes != [] {
      ClassesUnderPackage(packageName, classes[..|classes| - 1]);
    }
  }

  /**
   * A named package whose metrics all convert: its own node comes first, at the parent of
   * the path of its name and named by its last segment, followed by one node per class, in
   * order, each at the path of the package name.
   */
  lemma NamedPackageInsertions(p: JasomePackage)
    requires !IsNullOrBlank(p.name)
    requires CreatePackageNode(p).Ok?
    requires forall c :: c in p.classes.GetOr([]) ==> CreateClassNode(c).Ok?
    ensures
      var e := PackageEffect(p);
      var classes := p.classes.GetOr([]);
      && e.error.None?
      && |e.inserted| == 1 + |classes|
      && e.inserted[0] == Insertion(ParentOfPackagePath(p.name.value), CreatePackageNode(p).value)
      && e.inserted[0].node.name == SubstringAfterLast(p.name.value, '.')
      && forall i :: 0 <= i < |classes| ==>
           e.inserted[1 + i] == Insertion(PackagePath(p.name.value), CreateClassNode(classes[i]).value)
  {
    var name, classes := p.name.value, p.classes.GetOr([]);
    ClassesInOrder(name, classes);
    NamedPackageEffect(p);
    var rest := ForEach(classes, AddClassStep(name));
    var e := PackageEffect(p);
    var own := Insertion(ParentOfPackagePath(name), CreatePackageNode(p).value);
    assert e.inserted == [own] + rest.inserted && e.error == rest.error;
    forall i | 0 <= i < |classes|
      ensures e.inserted[1 + i] == rest.inserted[i]
    {
      assert ([own] + rest.inserted)[1 + i] == rest.inserted[i];
    }
  }

  /** A named package whose node converts: that node, then the class loop. */
  lemma NamedPackageEffect(p: JasomePackage)
    requires !IsNullOrBlank(p.name) && CreatePackageNode(p).Ok?
    ensures
      var rest := ForEach(p.classes.GetOr([]), AddClassStep(p.name.value));
      PackageEffect(p) == Effect([Insertion(ParentOfPackagePath(p.name.value), CreatePackageNode(p).value)] + rest.inserted, rest.error)
  {
    assert p.name.GetOr("") == p.name.value;
  }

  /** Classes that all convert are inserted one node each, in order, under the package name. */
  lemma ClassesInOrder(packageName: string, classes: seq<JasomeClass>)
    requires forall c :: c in classes ==> CreateClassNode(c).Ok?
    ensures
      var e := ForEach(classes, AddClassStep(packageName));
      && e.error.None?
      && |e.inserted| == |classes|
      && forall i :: 0 <= i < |classes| ==> e.inserted[i] == Insertion(PackagePath(packageName), CreateClassNode(classes[i]).value)
  {
    var step := AddClassStep(packageName);
    forall i | 0 <= i < |classes|
      ensures step(classes[i]) == Effect([Insertion(PackagePath(packageName), CreateClassNode(classes[i]).value)], None)
    {
      assert classes[i] in classes;
    }
    ForEachOfSingles(classes, step);
  }

  // ---------------------------------------------------------------- the builder

  class JasomeProjectBuilder {
    /** What was handed to `projectBuilder.insertByPath`, in order. */
    var insertions: seq<Insertion>

    constructor ()
      ensures insertions == []
    {
      insertions := [];
    }

    /** `add(packageName, class)`; an exception is returned as `Some(message)`. */
    method AddClass(packageName: string, c: JasomeClass) returns (error: Option<string>)
      modifies this
      ensures insertions == old(insertions) + ClassEffect(packageName, c).inserted
      ensures error == ClassEffect(packageName, c).error
    {
      var node := CreateClassNode(c);
      match node {
        case Err(e) =>
          error := Some(e);
        case Ok(n) =>
          insertions := insertions + [Insertion(PackagePath(packageName), n)];
          error := None;
      }
    }

    /** `add(package)`: its node when it is named, then its classes until one throws. */
    method AddPackage(p: JasomePackage) returns (error: Option<string>)
      modifies this
      ensures insertions == old(insertions) + PackageEffect(p).inserted
      ensures error == PackageEffect(p).error
    {
      ghost var own := OwnNodeEffect(p);
      if !IsNullOrBlank(p.name) {
        var node := CreatePackageNode(p);
        if node.Err? {
          return Some(node.error);
        }
        insertions := insertions + [Insertion(ParentOfPackagePath(p.name.value), node.value)];
      }
      assert own.error.None? && insertions == old(insertions) + own.inserted;
      ghost var start := insertions;
      var classes := p.classes.GetOr([]);
      var packageName := p.name.GetOr("");
      ghost var step := AddClassStep(packageName);
      for i := 0 to |classes|
        invariant insertions == start + ForEach(classes[..i], step).inserted
        invariant ForEach(classes[..i], step).error.None?
      {
        error := AddClass(packageName, classes[i]);
        ghost var e := ClassEffect(packageName, classes[i]);
        assert step(classes[i]) == e;
        ForEachStep(classes, step, i);
        AppendAssociative(start, ForEach(classes[..i], step).inserted, e.inserted);
        if error.Some? {
          ForEachThrown(classes, step, i + 1);
          AppendAssociative(old(insertions), own.inserted, ForEach(classes, step).inserted);
          return;
        }
      }
      assert classes[..|classes|] == classes;
      AppendAssociative(old(insertions), own.inserted, ForEach(classes, step).inserted);
      error := None;
    }

    /** `add(project)`: its packages in order until one throws; no package list adds nothing. */
    method AddProject(project: JasomeProject) returns (error: Option<string>)
      modifies this
      ensures insertions == old(insertions) + ProjectEffect(project).inserted
      ensures error == ProjectEffect(project).error
    {
      var packages := project.packages.GetOr([]);
      ghost var step := AddPackageStep();
      for i := 0 to |packages|
        invariant insertions == old(insertions) + ForEach(packages[..i], step).inserted
        invariant ForEach(packages[..i], step).error.None?
      {
        error := AddPackage(packages[i]);
        ghost var e := PackageEffect(packages[i]);
        assert step(packages[i]) == e;
        ForEachStep(packages, step, i);
        AppendAssociative(old(insertions), ForEach(packages[..i], step).inserted, e.inserted);
        if error.Some? {
          ForEachThrown(packages, step, i + 1);
          return;
        }
      }
      assert packages[..|packages|] == packages;
      error := None;
    }
  }

  /** A project without a package list adds nothing. */
  lemma EmptyProject()
    ensures ProjectEffect(JasomeProject(None)) == NoEffect
  {
  }
}
