/** The message helpers of src/log_handler.py: the direction wording of
    `format_prediction`, the pattern messages of `get_pattern_messages`, and the
    interval and expiry arithmetic inside `log_operation`. */
module LogHandler {
  import Decimal

  // ------------------------------------------------------------ format_prediction

  /** `str.upper()` on one character, for the characters whose upper case is an ASCII
      letter: `a`-`z`, the dotless i and the long s. Every other character is kept. */
  function Upper(c: char): (u: char)
    ensures 'a' <= c <= 'z' ==> 'A' <= u <= 'Z' && u as int == c as int - 32
    ensures c == '\U{0131}' ==> u == 'I'
    ensures c == '\U{017F}' ==> u == 'S'
    ensures !('a' <= c <= 'z') && c != '\U{0131}' && c != '\U{017F}' ==> u == c
    ensures 'A' <= u <= 'Z' ==> c == u || 'a' <= c <= 'z' || c == '\U{0131}' || c == '\U{017F}'
  {
    if 'a' <= c <= 'z' then (c as int - 32) as char
    else if c == '\U{0131}' then 'I'
    else if c == '\U{017F}' then 'S'
    else c
  }

  function UpperString(s: string): (u: string)
    ensures |u| == |s|
    ensures forall k :: 0 <= k < |s| ==> u[k] == Upper(s[k])
  {
    seq(|s|, k requires 0 <= k < |s| => Upper(s[k]))
  }

  /** Upper-casing twice is upper-casing once. */
  lemma UpperStringIdempotent(s: string)
    ensures UpperString(UpperString(s)) == UpperString(s)
  {
  }

  const UpWords: seq<string> := ["CALL", "BUY", "SUBIR"]
  const DownWords: seq<string> := ["PUT", "SELL", "CAIR"]
  /** "subir" followed by the up-arrow emoji (U+2B06 with variation selector 16). */
  const UpText: string := "subir \U{2B06}\U{FE0F}"
  /** "descer" followed by the down-arrow emoji (U+2B07 with variation selector 16). */
  const DownText: string := "descer \U{2B07}\U{FE0F}"

  /** `format_prediction(direction)`: a buy keyword in any case becomes the up text, a
      sell keyword the down text, and anything else is returned as it came. */
  function FormatPrediction(direction: string): (r: string)
    ensures UpperString(direction) in UpWords ==> r == UpText
    ensures UpperString(direction) in DownWords ==> r == DownText
    ensures UpperString(direction) !in UpWords + DownWords ==> r == direction
  {
    var u := UpperString(direction);
    if u in UpWords then UpText
    else if u in DownWords then DownText
    else direction
  }

  /** Formatting is idempotent: neither output text is a keyword in any case (both are
      longer than every keyword), so a formatted text is returned unchanged. */
  lemma FormatIdempotent(direction: string)
    ensures FormatPrediction(FormatPrediction(direction)) == FormatPrediction(direction)
  {
    var r := FormatPrediction(direction);
    assert |UpperString(UpText)| == 8 && |UpperString(DownText)| == 9;
    assert forall w :: w in UpWords + DownWords ==> |w| <= 5;
  }

  /** Only the upper-cased text matters: two spellings that agree after `upper()`
      format the same way when one of them is a keyword. */
  lemma FormatIgnoresCase(d: string, e: string)
    requires UpperString(d) == UpperString(e)
    requires UpperString(d) in UpWords + DownWords
    ensures FormatPrediction(d) == FormatPrediction(e)
    ensures FormatPrediction(d) == FormatPrediction(UpperString(d))
  {
    UpperStringIdempotent(d);
  }

  /** The lower-case letter of an ASCII capital. */
  function Lower(c: char): char {
    if 'A' <= c <= 'Z' then (c as int + 32) as char else c
  }

  /** `d` spells the upper-case word `w` with each letter in either case. */
  predicate SpellingOf(d: string, w: string) {
    |d| == |w| && forall k :: 0 <= k < |d| ==> d[k] == w[k] || d[k] == Lower(w[k])
  }

  predicate Capitals(w: string) {
    forall k :: 0 <= k < |w| ==> 'A' <= w[k] <= 'Z'
  }

  /** `upper()` turns every mixed-case spelling of a capitalised word into that word. */
  lemma UpperOfSpelling(d: string, w: string)
    requires Capitals(w) && SpellingOf(d, w)
    ensures UpperString(d) == w
  {
    forall k | 0 <= k < |d| ensures UpperString(d)[k] == w[k] {
      if d[k] != w[k] {
        assert d[k] == Lower(w[k]);
      }
    }
  }

  lemma KeywordsCapitals()
    ensures forall i :: 0 <= i < |UpWords| ==> Capitals(UpWords[i])
    ensures forall i :: 0 <= i < |DownWords| ==> Capitals(DownWords[i])
  {
    assert Capitals(UpWords[0]) && Capitals(UpWords[1]) && Capitals(UpWords[2]);
    assert Capitals(DownWords[0]) && Capitals(DownWords[1]) && Capitals(DownWords[2]);
  }

  /** Every spelling of a buy keyword, in any mix of cases, gives the up text, and
      every spelling of a sell keyword the down text. */
  lemma FormatAnySpelling(d: string, i: nat)
    ensures i < |UpWords| && SpellingOf(d, UpWords[i]) ==> FormatPrediction(d) == UpText
    ensures i < |DownWords| && SpellingOf(d, DownWords[i]) ==> FormatPrediction(d) == DownText
  {
    KeywordsCapitals();
    if i < |UpWords| && SpellingOf(d, UpWords[i]) {
      UpperOfSpelling(d, UpWords[i]);
    }
    if i < |DownWords| && SpellingOf(d, DownWords[i]) {
      UpperOfSpelling(d, DownWords[i]);
    }
  }

  /** The keywords in the spellings the bot and its users write. */
  lemma FormatExamples()
    ensures FormatPrediction("SUBIR") == UpText && FormatPrediction("call") == UpText
    ensures FormatPrediction("Cair") == DownText && FormatPrediction("sell") == DownText
    ensures FormatPrediction("hold") == "hold"
  {
    assert UpperString("SUBIR") == "SUBIR";
    assert UpperString("call") == "CALL";
    assert UpperString("Cair") == "CAIR";
    assert UpperString("sell") == "SELL";
    assert UpperString("hold") == "HOLD";
  }

  // --------------------------------------------------------- get_pattern_messages

  /** The pattern name with its bullish and bearish message. */
  datatype PatternText = PatternText(name: string, bullish: string, bearish: string)

  const PatternMap: map<string, PatternText> := map[
    "engulfing" := PatternText("Engolfo", "Engolfo de Alta", "Engolfo de Baixa"),
    "pin_bar" := PatternText("Pin Bar", "Pin Bar de Alta (Martelo)", "Pin Bar de Baixa (Estrela Cadente)"),
    "marubozu" := PatternText("Marubozu", "Marubozu de Alta", "Marubozu de Baixa")
  ]

  const InsideBarMessage: string := "Inside Bar"

  /** "Nenhum padrão claro identificado, decisão baseada em indicadores." */
  const DefaultMessage: string :=
    "Nenhum padr\U{E3}o claro identificado, decis\U{E3}o baseada em indicadores."

  /** The messages one `(key, value)` entry of the pattern dict contributes. */
  function EntryMessages(key: string, value: int): (ms: seq<string>)
    ensures |ms| <= 1
    ensures ms != [] <==>
      (key in PatternMap && (value == 1 || value == -1)) || (key == "inside_bar" && value == 1)
    ensures key in PatternMap && value == 1 ==> ms == [PatternMap[key].bullish]
    ensures key in PatternMap && value == -1 ==> ms == [PatternMap[key].bearish]
    ensures key == "inside_bar" && value == 1 ==> ms == [InsideBarMessage]
  {
    if key in PatternMap && value != 0 then
      if value == 1 then [PatternMap[key].bullish]
      else if value == -1 then [PatternMap[key].bearish]
      else []
    else if key == "inside_bar" && value == 1 then [InsideBarMessage]
    else []
  }

  /** The messages of the entries, in the dict's iteration order: at most one per
      entry. */
  function Collected(patterns: seq<(string, int)>): (ms: seq<string>)
    ensures |ms| <= |patterns|
  {
    if patterns == [] then []
    else
      var last := patterns[|patterns| - 1];
      Collected(patterns[..|patterns| - 1]) + EntryMessages(last.0, last.1)
  }

  /** `get_pattern_messages(patterns)`, with the dict given as its items in iteration
      order. */
  method GetPatternMessages(patterns: seq<(string, int)>) returns (messages: seq<string>)
    ensures messages == if Collected(patterns) == [] then [DefaultMessage] else Collected(patterns)
  {
    messages := [];
    for i := 0 to |patterns|
      invariant messages == Collected(patterns[..i])
    {
      CollectedStep(patterns, i);
      var (key, value) := patterns[i];
      if key in PatternMap && value != 0 {
        var text := PatternMap[key];
        if value == 1 {
          messages := messages + [text.bullish];
        } else if value == -1 {
          messages := messages + [text.bearish];
        }
      } else if key == "inside_bar" && value == 1 {
        messages := messages + [InsideBarMessage];
      }
    }
    assert patterns[..|patterns|] == patterns;
    if messages == [] {
      messages := messages + [DefaultMessage];
    }
  }

  /** Collecting one more entry appends that entry's messages. */
  lemma CollectedStep(patterns: seq<(string, int)>, i: nat)
    requires i < |patterns|
    ensures Collected(patterns[..i + 1]) == Collected(patterns[..i]) + EntryMessages(patterns[i].0, patterns[i].1)
  {
    assert patterns[..i + 1][..i] == patterns[..i];
  }

  /** Messages keep the order of the entries: the messages of a concatenation are the
      messages of each part in turn. */
  lemma {:induction false} CollectedAppend(a: seq<(string, int)>, b: seq<(string, int)>)
    ensures Collected(a + b) == Collected(a) + Collected(b)
    decreases |b|
  {
    if b == [] {
      assert a + b == a;
    } else {
      assert (a + b)[..|a + b| - 1] == a + b[..|b| - 1];
      CollectedAppend(a, b[..|b| - 1]);
    }
  }

  /** Every collected message is one of the pattern messages, never the default, so
      the result of `get_pattern_messages` is the default exactly when no entry
      produced a message. */
  lemma {:induction false} CollectedNotDefault(patterns: seq<(string, int)>)
    ensures DefaultMessage !in Collected(patterns)
  {
    if patterns != [] {
      var last := patterns[|patterns| - 1];
      CollectedNotDefault(patterns[..|patterns| - 1]);
      var ms := EntryMessages(last.0, last.1);
      if ms != [] {
        assert |ms[0]| < |DefaultMessage|;
      }
    }
  }

  /** One bullish engulfing, an inside bar, a flat marubozu and an unknown key. */
  lemma CollectedExample()
    ensures Collected([("engulfing", 1), ("inside_bar", 1), ("marubozu", 0), ("rsi", 1)])
         == ["Engolfo de Alta", InsideBarMessage]
  {
    var ps: seq<(string, int)> := [("engulfing", 1), ("inside_bar", 1), ("marubozu", 0), ("rsi", 1)];
    var p1, p2, p3 := ps[..1], ps[..2], ps[..3];
    assert p1 == [("engulfing", 1)] && p1[..0] == [];
    assert p2[..1] == p1 && p3[..2] == p2 && ps[..3] == p3;
    assert Collected(p1) == ["Engolfo de Alta"];
    assert Collected(p2) == ["Engolfo de Alta", InsideBarMessage];
    assert Collected(p3) == Collected(p2) + EntryMessages("marubozu", 0);
    assert Collected(ps) == Collected(p3) + EntryMessages("rsi", 1);
  }

  // --------------------------------------------------------------- log_operation

  /** `''.join(filter(str.isdigit, s))` for ASCII digits. */
  function Digits(s: string): (d: string)
    ensures Decimal.AllDigits(d) && |d| <= |s|
  {
    if s == [] then []
    else (if Decimal.IsDigit(s[0]) then [s[0]] else []) + Digits(s[1..])
  }

  /** Filtering works character by character. */
  lemma {:induction false} DigitsAppend(a: string, b: string)
    ensures Digits(a + b) == Digits(a) + Digits(b)
  {
    if a != [] {
      assert (a + b)[1..] == a[1..] + b;
      DigitsAppend(a[1..], b);
    } else {
      assert a + b == b;
    }
  }

  /** A string of digits passes the filter whole; one without digits leaves nothing. */
  lemma {:induction false} DigitsOfDigits(s: string)
    ensures Decimal.AllDigits(s) ==> Digits(s) == s
    ensures (forall k :: 0 <= k < |s| ==> !Decimal.IsDigit(s[k])) ==> Digits(s) == []
  {
    if s != [] {
      DigitsOfDigits(s[1..]);
    }
  }

  /** CPython's default limit on the number of digits `int` converts from a string
      (`sys.get_int_max_str_digits()`); a longer string raises `ValueError`. */
  const MaxStrDigits: nat := 4300

  /** `int(digits)`, falling back to 1 minute on the `ValueError` of `int('')` (no
      digit) and of a string longer than the digit limit. */
  function IntervalMinutes(timeframe: string): (m: nat)
    ensures Digits(timeframe) == [] ==> m == 1
    ensures |Digits(timeframe)| > MaxStrDigits ==> m == 1
    ensures Digits(timeframe) != [] && |Digits(timeframe)| <= MaxStrDigits ==>
              m == Decimal.Value(Digits(timeframe))
  {
    var d := Digits(timeframe);
    if d == [] || |d| > MaxStrDigits then 1 else Decimal.Value(d)
  }

  /** A timeframe holding the decimal number `n` and no other digit denotes `n`
      minutes, whatever letters surround it, unless `n` has more digits than `int`
      accepts, when it denotes 1 minute. */
  lemma IntervalOfTimeframe(prefix: string, n: nat, suffix: string)
    requires forall k :: 0 <= k < |prefix| ==> !Decimal.IsDigit(prefix[k])
    requires forall k :: 0 <= k < |suffix| ==> !Decimal.IsDigit(suffix[k])
    ensures |Decimal.NatToString(n)| <= MaxStrDigits ==>
              IntervalMinutes(prefix + Decimal.NatToString(n) + suffix) == n
    ensures |Decimal.NatToString(n)| > MaxStrDigits ==>
              IntervalMinutes(prefix + Decimal.NatToString(n) + suffix) == 1
  {
    var s := Decimal.NatToString(n);
    DigitsAppend(prefix + s, suffix);
    DigitsAppend(prefix, s);
    DigitsOfDigits(prefix);
    DigitsOfDigits(s);
    DigitsOfDigits(suffix);
    Decimal.ValueOfNatToString(n);
    assert Digits(prefix + s + suffix) == s;
  }

  /** The timeframes of the bot: the unit letter is ignored, so "1h" means one minute. */
  lemma IntervalExamples()
    ensures IntervalMinutes("M5") == 5 && IntervalMinutes("15m") == 15
    ensures IntervalMinutes("1h") == 1 && IntervalMinutes("M") == 1
  {
    IntervalOfTimeframe("M", 5, "");
    IntervalOfTimeframe("", 15, "m");
    IntervalOfTimeframe("", 1, "h");
    assert "M" + Decimal.NatToString(5) + "" == "M5";
    assert "" + Decimal.NatToString(15) + "m" == "15m";
    assert "" + Decimal.NatToString(1) + "h" == "1h";
    assert Digits("M") == [];
  }

  /** `hora_entrada_local + timedelta(minutes=interval_minutes)`, with times counted in
      seconds. */
  function ExpiryTime(entry: int, timeframe: string): (e: int)
    ensures e >= entry
    ensures (e - entry) % 60 == 0
  {
    entry + 60 * IntervalMinutes(timeframe)
  }

  /** The expiry lies exactly the timeframe's number of minutes after the entry, or
      one minute after it when that number has more digits than `int` accepts. */
  lemma ExpiryOfTimeframe(entry: int, prefix: string, n: nat, suffix: string)
    requires forall k :: 0 <= k < |prefix| ==> !Decimal.IsDigit(prefix[k])
    requires forall k :: 0 <= k < |suffix| ==> !Decimal.IsDigit(suffix[k])
    ensures |Decimal.NatToString(n)| <= MaxStrDigits ==>
              ExpiryTime(entry, prefix + Decimal.NatToString(n) + suffix) == entry + 60 * n
    ensures |Decimal.NatToString(n)| > MaxStrDigits ==>
              ExpiryTime(entry, prefix + Decimal.NatToString(n) + suffix) == entry + 60
  {
    IntervalOfTimeframe(prefix, n, suffix);
  }
}
