/** Text helpers of the KML output (utils/converter/kml/kmlHelpers.ts): XML
    escaping, the hours/minutes/seconds rendering of a duration and the unit
    choice for a distance. */
module KmlHelpers {

  // ---------------------------------------------------------------- XML escaping

  /** `s.replace(/c/g, repl)`. */
  function ReplaceAll(s: string, c: char, repl: string): (r: string)
  {
    if s == [] then [] else (if s[0] == c then repl else [s[0]]) + ReplaceAll(s[1..], c, repl)
  }

  lemma {:induction false} ReplaceAllConcat(a: string, b: string, c: char, repl: string)
    ensures ReplaceAll(a + b, c, repl) == ReplaceAll(a, c, repl) + ReplaceAll(b, c, repl)
  {
    if a == [] {
      assert a + b == b;
    } else {
      var ab := a + b;
      assert ab[0] == a[0] && ab[1..] == a[1..] + b;
      var h := if a[0] == c then repl else [a[0]];
      ReplaceAllConcat(a[1..], b, c, repl);
      calc {
        ReplaceAll(ab, c, repl);
        h + ReplaceAll(a[1..] + b, c, repl);
        h + (ReplaceAll(a[1..], c, repl) + ReplaceAll(b, c, repl));
        (h + ReplaceAll(a[1..], c, repl)) + ReplaceAll(b, c, repl);
      }
    }
  }

  /** Replacing a character by text without it leaves none of it. */
  lemma {:induction false} ReplaceRemoves(s: string, c: char, repl: string)
    requires c !in repl
    ensures c !in ReplaceAll(s, c, repl)
  {
    if s != [] {
      ReplaceRemoves(s[1..], c, repl);
    }
  }

  /** A character in neither the input nor the replacement is not in the output. */
  lemma {:induction false} ReplaceKeepsAbsent(s: string, c: char, repl: string, x: char)
    requires x !in s && x !in repl
    ensures x !in ReplaceAll(s, c, repl)
  {
    if s != [] {
      ReplaceKeepsAbsent(s[1..], c, repl, x);
      assert s[0] != x;
    }
  }

  /** The five `replace` calls of `escapeXml`, in the source's order, `&` first. */
  function ReplaceChain(text: string): string {
    var amp := ReplaceAll(text, '&', "&amp;");
    var lt := ReplaceAll(amp, '<', "&lt;");
    var gt := ReplaceAll(lt, '>', "&gt;");
    var quot := ReplaceAll(gt, '"', "&quot;");
    ReplaceAll(quot, '\'', "&apos;")
  }

  /** `escapeXml`: every character replaced by its own text, so the result
      holds no raw `<`, `>`, `"` or `'`. */
  function EscapeXml(text: string): (r: string)
    ensures r == EscapeEach(text)
    ensures '<' !in r && '>' !in r && '"' !in r && '\'' !in r
  {
    ChainIsPerCharacter(text);
    NoRawSpecials(text);
    ReplaceChain(text)
  }

  /** The replacement text of a single character. */
  function EscapeChar(c: char): string {
    match c
    case '&' => "&amp;"
    case '<' => "&lt;"
    case '>' => "&gt;"
    case '"' => "&quot;"
    case '\'' => "&apos;"
    case _ => [c]
  }

  /** Escaping character by character, each replaced by its own text. */
  function EscapeEach(s: string): string {
    if s == [] then [] else EscapeChar(s[0]) + EscapeEach(s[1..])
  }

  lemma {:induction false} ChainConcat(a: string, b: string)
    ensures ReplaceChain(a + b) == ReplaceChain(a) + ReplaceChain(b)
  {
    ReplaceAllConcat(a, b, '&', "&amp;");
    var a1, b1 := ReplaceAll(a, '&', "&amp;"), ReplaceAll(b, '&', "&amp;");
    ReplaceAllConcat(a1, b1, '<', "&lt;");
    var a2, b2 := ReplaceAll(a1, '<', "&lt;"), ReplaceAll(b1, '<', "&lt;");
    ReplaceAllConcat(a2, b2, '>', "&gt;");
    var a3, b3 := ReplaceAll(a2, '>', "&gt;"), ReplaceAll(b2, '>', "&gt;");
    ReplaceAllConcat(a3, b3, '"', "&quot;");
    var a4, b4 := ReplaceAll(a3, '"', "&quot;"), ReplaceAll(b3, '"', "&quot;");
    ReplaceAllConcat(a4, b4, '\'', "&apos;");
  }

  lemma {:induction false} ReplaceAllAbsent(s: string, c: char, repl: string)
    requires c !in s
    ensures ReplaceAll(s, c, repl) == s
  {
    if s != [] {
      ReplaceAllAbsent(s[1..], c, repl);
      assert s == [s[0]] + s[1..];
    }
  }

  lemma ReplaceAllSingle(x: char, c: char, repl: string)
    ensures ReplaceAll([x], c, repl) == if x == c then repl else [x]
  {
    assert [x][1..] == [];
  }

  lemma EscapeAmp(x: char)
    requires x == '&'
    ensures ReplaceChain([x]) == EscapeChar(x)
  {
    var e := EscapeChar(x);
    assert e == "&amp;";
    assert '<' !in e && '>' !in e && '"' !in e && '\'' !in e;
    ReplaceAllSingle(x, '&', "&amp;");
    ReplaceAllAbsent(e, '<', "&lt;");
    ReplaceAllAbsent(e, '>', "&gt;");
    ReplaceAllAbsent(e, '"', "&quot;");
    ReplaceAllAbsent(e, '\'', "&apos;");
  }

  lemma EscapeLt(x: char)
    requires x == '<'
    ensures ReplaceChain([x]) == EscapeChar(x)
  {
    var e := EscapeChar(x);
    assert e == "&lt;";
    assert '>' !in e && '"' !in e && '\'' !in e;
    ReplaceAllAbsent([x], '&', "&amp;");
    ReplaceAllSingle(x, '<', "&lt;");
    ReplaceAllAbsent(e, '>', "&gt;");
    ReplaceAllAbsent(e, '"', "&quot;");
    ReplaceAllAbsent(e, '\'', "&apos;");
  }

  lemma EscapeGt(x: char)
    requires x == '>'
    ensures ReplaceChain([x]) == EscapeChar(x)
  {
    var e := EscapeChar(x);
    assert e == "&gt;";
    assert '"' !in e && '\'' !in e;
    ReplaceAllAbsent([x], '&', "&amp;");
    ReplaceAllAbsent([x], '<', "&lt;");
    ReplaceAllSingle(x, '>', "&gt;");
    ReplaceAllAbsent(e, '"', "&quot;");
    ReplaceAllAbsent(e, '\'', "&apos;");
  }

  lemma EscapeQuot(x: char)
    requires x == '"'
    ensures ReplaceChain([x]) == EscapeChar(x)
  {
    var e := EscapeChar(x);
    assert e == "&quot;";
    assert '\'' !in e;
    ReplaceAllAbsent([x], '&', "&amp;");
    ReplaceAllAbsent([x], '<', "&lt;");
    ReplaceAllAbsent([x], '>', "&gt;");
    ReplaceAllSingle(x, '"', "&quot;");
    ReplaceAllAbsent(e, '\'', "&apos;");
  }

  lemma EscapeApos(x: char)
    requires x == '\''
    ensures ReplaceChain([x]) == EscapeChar(x)
  {
    var e := EscapeChar(x);
    assert e == "&apos;";
    ReplaceAllAbsent([x], '&', "&amp;");
    ReplaceAllAbsent([x], '<', "&lt;");
    ReplaceAllAbsent([x], '>', "&gt;");
    ReplaceAllAbsent([x], '"', "&quot;");
    ReplaceAllSingle(x, '\'', "&apos;");
  }

  lemma EscapePlain(x: char)
    requires x !in "&<>\"'"
    ensures ReplaceChain([x]) == [x]
  {
    ReplaceAllAbsent([x], '&', "&amp;");
    ReplaceAllAbsent([x], '<', "&lt;");
    ReplaceAllAbsent([x], '>', "&gt;");
    ReplaceAllAbsent([x], '"', "&quot;");
    ReplaceAllAbsent([x], '\'', "&apos;");
  }

  /** The replacement chain on one character gives that character's text:
      each entity holds no character a later step replaces. */
  lemma ChainSingle(x: char)
    ensures ReplaceChain([x]) == EscapeChar(x)
  {
    if x == '&' { EscapeAmp(x); }
    else if x == '<' { EscapeLt(x); }
    else if x == '>' { EscapeGt(x); }
    else if x == '"' { EscapeQuot(x); }
    else if x == '\'' { EscapeApos(x); }
    else { EscapePlain(x); }
  }

  /** Because `&` is replaced first, no entity text is rewritten by a later
      replacement: the chain equals the character-by-character escaping. */
  lemma {:induction false} ChainIsPerCharacter(s: string)
    ensures ReplaceChain(s) == EscapeEach(s)
  {
    if s != [] {
      ChainIsPerCharacter(s[1..]);
      assert s == [s[0]] + s[1..];
      ChainConcat([s[0]], s[1..]);
      ChainSingle(s[0]);
    }
  }

  /** No character's replacement text is a raw `<`, `>`, `"` or `'`. */
  lemma {:induction false} NoRawSpecials(s: string)
    ensures '<' !in EscapeEach(s) && '>' !in EscapeEach(s) && '"' !in EscapeEach(s) && '\'' !in EscapeEach(s)
  {
    if s != [] {
      NoRawSpecials(s[1..]);
      var head := EscapeChar(s[0]);
      assert '<' !in head && '>' !in head && '"' !in head && '\'' !in head;
    }
  }

  const Entities: seq<string> := ["&amp;", "&lt;", "&gt;", "&quot;", "&apos;"]

  /** Position `i` of `s` starts one of the five entities. */
  predicate EntityAt(s: string, i: nat)
    requires i <= |s|
  {
    exists e :: e in Entities && e <= s[i..]
  }

  /** Every `&` of the escaped text starts one of the five entities. */
  lemma {:induction false} AmpersandsStartEntities(s: string)
    ensures forall i :: 0 <= i < |EscapeXml(s)| && EscapeXml(s)[i] == '&' ==> EntityAt(EscapeXml(s), i)
  {
    EscapedAmpersands(s);
  }

  lemma {:induction false} EscapedAmpersands(s: string)
    ensures forall i :: 0 <= i < |EscapeEach(s)| && EscapeEach(s)[i] == '&' ==> EntityAt(EscapeEach(s), i)
  {
    if s != [] {
      EscapedAmpersands(s[1..]);
      var head, tail := EscapeChar(s[0]), EscapeEach(s[1..]);
      var out := head + tail;
      forall i | 0 <= i < |out| && out[i] == '&' ensures EntityAt(out, i) {
        if i < |head| {
          assert head in Entities && i == 0;
          assert head <= out[i..];
        } else {
          assert tail[i - |head|] == '&';
          var e :| e in Entities && e <= tail[i - |head|..];
          assert out[i..] == tail[i - |head|..];
        }
      }
    }
  }

  /** The character the text starts with, once entities are read, and the
      length of text it took. */
  function DecodeHead(s: string): (r: (char, nat))
    requires s != []
    ensures 1 <= r.1 <= |s|
  {
    if s[0] != '&' then (s[0], 1)
    else if "&amp;" <= s then ('&', 5)
    else if "&lt;" <= s then ('<', 4)
    else if "&gt;" <= s then ('>', 4)
    else if "&quot;" <= s then ('"', 6)
    else if "&apos;" <= s then ('\'', 6)
    else ('&', 1)
  }

  /** XML unescaping of the five entities, the inverse of `escapeXml`. */
  function Unescape(s: string): string
    decreases |s|
  {
    if s == [] then [] else [DecodeHead(s).0] + Unescape(s[DecodeHead(s).1..])
  }

  /** Unescaping reads one character's replacement text back as that character. */
  lemma DecodeEscaped(c: char, tail: string)
    ensures DecodeHead(EscapeChar(c) + tail) == (c, |EscapeChar(c)|)
  {
    var out := EscapeChar(c) + tail;
    match c
    case '&' => assert out[..5] == "&amp;";
    case '<' => assert out[1] == 'l' && out[..4] == "&lt;";
    case '>' => assert out[1] == 'g' && out[..4] == "&gt;";
    case '"' => assert out[1] == 'q' && out[..6] == "&quot;";
    case '\'' => assert out[1] == 'a' && out[2] == 'p' && out[..6] == "&apos;";
    case _ => assert out[0] == c;
  }

  lemma UnescapeStep(c: char, tail: string)
    ensures Unescape(EscapeChar(c) + tail) == [c] + Unescape(tail)
  {
    var out := EscapeChar(c) + tail;
    DecodeEscaped(c, tail);
    assert out[|EscapeChar(c)|..] == tail;
  }

  lemma {:induction false} UnescapeEscapeEach(s: string)
    ensures Unescape(EscapeEach(s)) == s
  {
    if s != [] {
      UnescapeEscapeEach(s[1..]);
      UnescapeStep(s[0], EscapeEach(s[1..]));
      assert s == [s[0]] + s[1..];
    }
  }

  /** Escaping loses nothing: unescaping gives back the original text. */
  lemma {:induction false} EscapeXmlRoundTrip(s: string)
    ensures Unescape(EscapeXml(s)) == s
  {
    UnescapeEscapeEach(s);
  }

  // ---------------------------------------------------------------- durations

  /** Truncation towards zero. */
  function Trunc(x: real): int {
    if x >= 0.0 then x.Floor else -((-x).Floor)
  }

  /** JavaScript's `%` on numbers: the remainder takes the sign of the dividend. */
  function JsRemainder(x: real, m: real): real
    requires m > 0.0
  {
    x - m * (Trunc(x / m) as real)
  }

  datatype DurationParts = DurationParts(hours: int, minutes: int, secs: int)

  /** The three `Math.floor` expressions of `formatDuration`. */
  function Parts(seconds: real): DurationParts {
    DurationParts((seconds / 3600.0).Floor,
                  (JsRemainder(seconds, 3600.0) / 60.0).Floor,
                  JsRemainder(seconds, 60.0).Floor)
  }

  lemma FloorOfQuotient(n: nat, k: nat)
    requires k == 60 || k == 3600
    ensures ((n as real) / (k as real)).Floor == n / k
  {
    var q, r := n / k, n % k;
    assert n == k * q + r;
    if k == 60 {
      assert (n as real) / 60.0 == (q as real) + (r as real) / 60.0;
    } else {
      assert (n as real) / 3600.0 == (q as real) + (r as real) / 3600.0;
    }
  }

  lemma RemainderOfWhole(n: nat, k: nat)
    requires k == 60 || k == 3600
    ensures JsRemainder(n as real, k as real) == (n % k) as real
  {
    FloorOfQuotient(n, k);
    assert n == k * (n / k) + n % k;
  }

  lemma SixtiethsOf(n: nat, q: nat, s: nat)
    requires n == 60 * q + s && s < 60
    ensures n % 60 == s
  {
  }

  /** For whole non-negative seconds the parts decompose the duration
      exactly, with minutes and seconds below sixty. */
  lemma {:induction false} PartsOfWholeSeconds(n: nat)
    ensures var p := Parts(n as real);
      && p.hours * 3600 + p.minutes * 60 + p.secs == n
      && 0 <= p.hours && 0 <= p.minutes < 60 && 0 <= p.secs < 60
  {
    var p := Parts(n as real);
    var h, r := n / 3600, n % 3600;
    var m, s := r / 60, r % 60;
    FloorOfQuotient(n, 3600);
    assert p.hours == h;
    RemainderOfWhole(n, 3600);
    FloorOfQuotient(r, 60);
    assert p.minutes == m;
    RemainderOfWhole(n, 60);
    assert n == 60 * (60 * h + m) + s;
    SixtiethsOf(n, 60 * h + m, s);
    assert p.secs == s;
    assert n == 3600 * h + 60 * m + s;
  }

  /** Decimal digits of a natural number. */
  function NatText(n: nat): (r: string)
    ensures |r| >= 1
    ensures forall c :: c in r ==> '0' <= c <= '9'
    ensures DigitsValue(r) == n
  {
    var d := ['0' + (n % 10) as char];
    if n < 10 then d else NatText(n / 10) + d
  }

  /** The number a string of decimal digits denotes. */
  function DigitsValue(s: string): nat {
    if s == [] then 0
    else
      var last := s[|s| - 1];
      DigitsValue(s[..|s| - 1]) * 10 + (if '0' <= last <= '9' then (last - '0') as nat else 0)
  }

  /** `${n}` for an integer-valued number. */
  function IntText(n: int): (r: string)
    ensures forall c :: c in r ==> c == '-' || '0' <= c <= '9'
  {
    if n < 0 then "-" + NatText(-n) else NatText(n)
  }

  /** `formatDuration`: hours, minutes and seconds when there is an hour;
      otherwise minutes and seconds when there is a minute; otherwise just
      seconds. The unit letters appear exactly for the parts shown. */
  function FormatDuration(seconds: real): (r: string)
    ensures ('h' in r) <==> Parts(seconds).hours > 0
    ensures ('m' in r) <==> Parts(seconds).hours > 0 || Parts(seconds).minutes > 0
    ensures |r| >= 2 && r[|r| - 1] == 's'
  {
    var p := Parts(seconds);
    var sText := IntText(p.secs) + "s";
    if p.hours > 0 then IntText(p.hours) + "h " + IntText(p.minutes) + "m " + sText
    else if p.minutes > 0 then IntText(p.minutes) + "m " + sText
    else sText
  }

  // ---------------------------------------------------------------- distances

  /** The two renderings of `formatDistance`, before number formatting:
      kilometres (shown with two decimals) or whole metres. */
  datatype DistanceText = Kilometres(km: real) | Metres(m: int)

  /** `formatDistance`: kilometres exactly from 1000 m up, else rounded metres. */
  function FormatDistance(meters: real): (r: DistanceText)
    ensures r.Kilometres? <==> meters >= 1000.0
    ensures r.Kilometres? ==> r.km * 1000.0 == meters && r.km >= 1.0
    ensures r.Metres? ==> meters - 0.5 < r.m as real <= meters + 0.5 && r.m <= 1000
  {
    if meters >= 1000.0 then Kilometres(meters / 1000.0)
    else Metres((meters + 0.5).Floor)
  }

  /** Just below a kilometre the metre branch rounds up to 1000. */
  lemma NearlyAKilometre()
    ensures FormatDistance(999.5) == Metres(1000)
  {
  }
}
