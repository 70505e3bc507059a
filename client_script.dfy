/** The pure helpers of the browser script: `escapeHtml` and the two
    notification tables. */
module ClientScript {

  predicate IsSpecial(c: char) {
    c == '&' || c == '<' || c == '>' || c == '"'
  }

  /** No character that could open a tag or close an attribute value. */
  predicate NoMarkup(s: string) {
    forall i :: 0 <= i < |s| ==> s[i] != '<' && s[i] != '>' && s[i] != '"'
  }

  predicate Plain(s: string) {
    forall i :: 0 <= i < |s| ==> !IsSpecial(s[i])
  }

  predicate AllSpecial(s: string) {
    forall i :: 0 <= i < |s| ==> IsSpecial(s[i])
  }

  /** The entry of the replacement table for one character. */
  function Entity(c: char): (e: string)
    requires IsSpecial(c)
    ensures NoMarkup(e) && |e| >= 4 && e[0] == '&' && e[|e| - 1] == ';'
  {
    match c
    case '&' => "&amp;"
    case '<' => "&lt;"
    case '>' => "&gt;"
    case '"' => "&quot;"
  }

  /** What the replacement callback returns for a matched run `m`: the
      table has entries only for single characters, so a longer run looks
      up `undefined`, which `replace` inserts as the text "undefined". */
  function Lookup(m: string): (r: string)
    requires m != [] && IsSpecial(m[0])
    ensures NoMarkup(r)
    ensures |m| == 1 ==> r == Entity(m[0])
    ensures |m| > 1 ==> r == "undefined"
  {
    if |m| == 1 then Entity(m[0]) else "undefined"
  }

  /** Length of the maximal run of special characters at the start of `s`. */
  function LeadingSpecials(s: string): (k: nat)
    ensures k <= |s|
    ensures s != [] && IsSpecial(s[0]) ==> k >= 1
  {
    if s == [] || !IsSpecial(s[0]) then 0 else 1 + LeadingSpecials(s[1..])
  }

  /** `String(str).replace(/[&<>"]+/g, s => table[s])`. */
  function EscapeHtml(s: string): (r: string)
    ensures NoMarkup(r)
    decreases |s|, 1
  {
    if s == [] then []
    else if IsSpecial(s[0]) then EscapeRun(s)
    else [s[0]] + EscapeHtml(s[1..])
  }

  /** The replacement at a match: the maximal run of special characters at
      the start of `s` is looked up as a whole. */
  function EscapeRun(s: string): (r: string)
    requires s != [] && IsSpecial(s[0])
    ensures NoMarkup(r)
    decreases |s|, 0
  {
    var k := LeadingSpecials(s);
    var m := s[..k];
    assert m[0] == s[0];
    Lookup(m) + EscapeHtml(s[k..])
  }

  lemma {:induction false} LeadingRun(run: string, t: string)
    requires AllSpecial(run)
    requires t == [] || !IsSpecial(t[0])
    ensures LeadingSpecials(run + t) == |run|
    decreases |run|
  {
    if run == [] {
      assert run + t == t;
    } else {
      assert (run + t)[1..] == run[1..] + t;
      LeadingRun(run[1..], t);
    }
  }

  /** Text without special characters is copied unchanged. */
  lemma {:induction false} EscapeKeepsPlain(w: string)
    requires Plain(w)
    ensures EscapeHtml(w) == w
    decreases |w|
  {
    if w != [] {
      EscapeKeepsPlain(w[1..]);
    }
  }

  /** One step of the replacement at a special character. */
  lemma EscapeAtRun(run: string, t: string)
    requires run != [] && AllSpecial(run)
    requires t == [] || !IsSpecial(t[0])
    ensures EscapeHtml(run + t) == Lookup(run) + EscapeHtml(t)
  {
    var s := run + t;
    LeadingRun(run, t);
    assert s[..|run|] == run && s[|run|..] == t;
  }

  /** The plain prefix is copied in order and the maximal special run after
      it is replaced by its table entry: together with EscapeKeepsPlain this
      determines `escapeHtml` on every input. */
  lemma EscapeOneRun(w: string, run: string, t: string)
    requires Plain(w) && run != [] && AllSpecial(run)
    requires t == [] || !IsSpecial(t[0])
    ensures EscapeHtml(w + run + t) == w + Lookup(run) + EscapeHtml(t)
  {
    EscapePlainPrefix(w, run + t);
    EscapeAtRun(run, t);
    Associate(w, run, t);
    Associate(w, Lookup(run), EscapeHtml(t));
  }

  lemma Associate(a: string, b: string, c: string)
    ensures a + b + c == a + (b + c)
  {
  }

  /** A plain prefix is copied in front of the escaping of what follows. */
  lemma {:induction false} EscapePlainPrefix(w: string, x: string)
    requires Plain(w)
    ensures EscapeHtml(w + x) == w + EscapeHtml(x)
    decreases |w|
  {
    if w == [] {
      assert w + x == x;
    } else {
      EscapePlainPrefix(w[1..], x);
      EscapeCons(w[0], w[1..] + x);
      SplitHead(w, x);
      SplitHead(w, EscapeHtml(x));
    }
  }

  lemma SplitHead(w: string, x: string)
    requires w != []
    ensures w + x == [w[0]] + (w[1..] + x)
  {
    assert w == [w[0]] + w[1..];
  }

  /** A plain character is copied in front of the escaping of what follows. */
  lemma EscapeCons(c: char, x: string)
    requires !IsSpecial(c)
    ensures EscapeHtml([c] + x) == [c] + EscapeHtml(x)
  {
    assert ([c] + x)[1..] == x;
  }

  /** A lone special character between plain text becomes its entity. */
  lemma LoneSpecialEscaped(w: string, c: char, t: string)
    requires Plain(w) && IsSpecial(c)
    requires t == [] || !IsSpecial(t[0])
    ensures EscapeHtml(w + [c] + t) == w + Entity(c) + EscapeHtml(t)
  {
    EscapeOneRun(w, [c], t);
  }

  /** A run of two or more special characters becomes the text "undefined". */
  lemma RunBecomesUndefined(w: string, run: string, t: string)
    requires Plain(w) && |run| >= 2 && AllSpecial(run)
    requires t == [] || !IsSpecial(t[0])
    ensures EscapeHtml(w + run + t) == w + "undefined" + EscapeHtml(t)
  {
    EscapeOneRun(w, run, t);
  }

  /** As written, `"<<"` and `"&&"` both come out as "undefined": the text
      the user typed is lost. */
  lemma EscapeHtmlLosesRuns()
    ensures EscapeHtml("<<") == "undefined" && EscapeHtml("&&") == "undefined"
  {
    RunBecomesUndefined("", "<<", "");
    RunBecomesUndefined("", "&&", "");
    assert "" + "<<" + "" == "<<" && "" + "&&" + "" == "&&";
  }

  /** The evidently intended escaping: every special character becomes its
      own entity, everything else is copied. */
  function EscapeEach(s: string): (r: string)
    ensures NoMarkup(r)
    ensures Plain(s) ==> r == s
  {
    if s == [] then []
    else (if IsSpecial(s[0]) then Entity(s[0]) else [s[0]]) + EscapeEach(s[1..])
  }

  /** Decoding of the four entities. */
  function Unescape(s: string): (r: string)
    decreases |s|
  {
    if s == [] then []
    else if |s| >= 5 && s[..5] == "&amp;" then "&" + Unescape(s[5..])
    else if |s| >= 4 && s[..4] == "&lt;" then "<" + Unescape(s[4..])
    else if |s| >= 4 && s[..4] == "&gt;" then ">" + Unescape(s[4..])
    else if |s| >= 6 && s[..6] == "&quot;" then "\"" + Unescape(s[6..])
    else [s[0]] + Unescape(s[1..])
  }

  /** Decoding reads an entity back as its character. */
  lemma UnescapeEntity(c: char, rest: string)
    requires IsSpecial(c)
    ensures Unescape(Entity(c) + rest) == [c] + Unescape(rest)
  {
    var x := Entity(c) + rest;
    var e := Entity(c);
    assert x[..|e|] == e && x[|e|..] == rest;
    assert x[1] == e[1];
    if |x| >= 4 {
      assert x[..4][1] == x[1];
    }
    if |x| >= 5 {
      assert x[..5][1] == x[1];
    }
  }

  /** Decoding copies a character that does not start an entity. */
  lemma UnescapePlain(c: char, rest: string)
    requires !IsSpecial(c)
    ensures Unescape([c] + rest) == [c] + Unescape(rest)
  {
    var x := [c] + rest;
    assert x[0] == c && x[1..] == rest;
    assert |x| >= 4 ==> x[..4][0] == c;
    assert |x| >= 5 ==> x[..5][0] == c;
    assert |x| >= 6 ==> x[..6][0] == c;
  }

  /** The corrected escaping loses nothing: decoding gives the input back. */
  lemma {:induction false} EscapeEachRoundTrip(s: string)
    ensures Unescape(EscapeEach(s)) == s
    decreases |s|
  {
    if s != [] {
      EscapeEachRoundTrip(s[1..]);
      if IsSpecial(s[0]) {
        UnescapeEntity(s[0], EscapeEach(s[1..]));
      } else {
        UnescapePlain(s[0], EscapeEach(s[1..]));
      }
      assert s == [s[0]] + s[1..];
    }
  }

  /** The notification types with an icon and a colour of their own. */
  const KnownKinds: set<string> := {"success", "warning", "error"}
  const InfoIcon := "fa-info-circle"
  const DefaultColor := "linear-gradient(135deg, #3b82f6, #60a5fa)"

  /** `getNotificationIcon(type)`: total; the info icon goes exactly to the
      types other than the three known ones. */
  function NotificationIcon(kind: string): (icon: string)
    ensures icon == InfoIcon <==> kind !in KnownKinds
  {
    match kind
    case "success" => "fa-check-circle"
    case "warning" => "fa-exclamation-triangle"
    case "error" => "fa-times-circle"
    case _ => InfoIcon
  }

  /** `getNotificationColor(type)`: total; the blue gradient goes exactly to
      the types other than the three known ones. */
  function NotificationColor(kind: string): (color: string)
    ensures color == DefaultColor <==> kind !in KnownKinds
  {
    match kind
    case "success" => "linear-gradient(135deg, #10b981, #34d399)"
    case "warning" => "linear-gradient(135deg, #f59e0b, #fbbf24)"
    case "error" => "linear-gradient(135deg, #ef4444, #f87171)"
    case _ => DefaultColor
  }

  /** Both tables classify notification types the same way: two types share
      an icon exactly when they share a colour. */
  lemma NotificationTablesAgree(a: string, b: string)
    ensures NotificationIcon(a) == NotificationIcon(b) <==> NotificationColor(a) == NotificationColor(b)
  {
  }
}
