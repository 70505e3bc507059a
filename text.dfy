/** Whitespace as JavaScript defines it (the regular-expression class `\s`,
    which is also the set `String.prototype.trim` strips), the storage-name
    sanitiser of the upload route (`replace(/\s+/g, '_')`) and the `trim`
    the account schema applies to names. */
module Text {

  predicate IsSpace(c: char) {
    || c == ' ' || c == '\t' || c == '\n' || c == '\r' || c == '\U{B}' || c == '\U{C}'
    || c == '\U{A0}' || c == '\U{1680}' || ('\U{2000}' <= c <= '\U{200A}')
    || c == '\U{2028}' || c == '\U{2029}' || c == '\U{202F}' || c == '\U{205F}'
    || c == '\U{3000}' || c == '\U{FEFF}'
  }

  predicate NoSpace(s: string) {
    forall i :: 0 <= i < |s| ==> !IsSpace(s[i])
  }

  predicate AllSpace(s: string) {
    forall i :: 0 <= i < |s| ==> IsSpace(s[i])
  }

  /** Length of the maximal run of whitespace at the start of `s`. */
  function LeadingSpaces(s: string): (k: nat)
    ensures k <= |s| && AllSpace(s[..k])
    ensures k < |s| ==> !IsSpace(s[k])
  {
    if s == [] || !IsSpace(s[0]) then 0 else 1 + LeadingSpaces(s[1..])
  }

  /** Length of the maximal run of whitespace at the end of `s`. */
  function TrailingSpaces(s: string): (k: nat)
    ensures k <= |s| && AllSpace(s[|s| - k..])
    ensures k < |s| ==> !IsSpace(s[|s| - 1 - k])
  {
    if s == [] || !IsSpace(s[|s| - 1]) then 0
    else
      var k := TrailingSpaces(s[..|s| - 1]);
      assert s[..|s| - 1][|s| - 1 - k..] == s[|s| - 1 - k..|s| - 1];
      1 + k
  }

  /** A whitespace run followed by a non-space (or nothing) is exactly the
      leading run. */
  lemma {:induction false} LeadingRun(run: string, t: string)
    requires AllSpace(run)
    requires t == [] || !IsSpace(t[0])
    ensures LeadingSpaces(run + t) == |run|
    decreases |run|
  {
    if run == [] {
      assert run + t == t;
    } else {
      assert (run + t)[1..] == run[1..] + t;
      LeadingRun(run[1..], t);
    }
  }

  /** `s.replace(/\s+/g, '_')`: every maximal run of whitespace becomes one `_`. */
  function ReplaceSpaceRuns(s: string): (r: string)
    ensures NoSpace(r)
    ensures |r| <= |s|
    decreases |s|
  {
    if s == [] then []
    else if IsSpace(s[0]) then
      var k := LeadingSpaces(s);
      "_" + ReplaceSpaceRuns(s[k..])
    else [s[0]] + ReplaceSpaceRuns(s[1..])
  }

  /** Text without whitespace passes through the sanitiser unchanged. */
  lemma {:induction false} ReplaceKeepsWord(w: string)
    requires NoSpace(w)
    ensures ReplaceSpaceRuns(w) == w
    decreases |w|
  {
    if w != [] {
      ReplaceKeepsWord(w[1..]);
    }
  }

  /** The run that follows a whitespace-free prefix is replaced by exactly one
      `_`, and the prefix is kept in order: together with ReplaceKeepsWord this
      determines the sanitiser on every input. */
  lemma {:induction false} ReplaceOneRun(w: string, run: string, t: string)
    requires NoSpace(w) && run != [] && AllSpace(run)
    requires t == [] || !IsSpace(t[0])
    ensures ReplaceSpaceRuns(w + run + t) == w + "_" + ReplaceSpaceRuns(t)
    decreases |w|
  {
    var s := w + run + t;
    if w == [] {
      assert s == run + t;
      LeadingRun(run, t);
      assert s[|run|..] == t;
    } else {
      assert s[0] == w[0] && s[1..] == w[1..] + run + t;
      ReplaceOneRun(w[1..], run, t);
    }
  }

  /** `r` is `s` less `a` leading and `b` trailing whitespace characters. */
  predicate StrippedBy(s: string, a: nat, b: nat, r: string) {
    a + b <= |s| && r == s[a..|s| - b] && AllSpace(s[..a]) && AllSpace(s[|s| - b..])
  }

  /** `s.trim()`: the input with its leading and trailing whitespace removed. */
  function Trim(s: string): (r: string)
    ensures |r| <= |s|
    ensures r == [] <==> AllSpace(s)
    ensures r != [] ==> !IsSpace(r[0]) && !IsSpace(r[|r| - 1])
    ensures exists a: nat, b: nat :: StrippedBy(s, a, b, r)
  {
    var a := LeadingSpaces(s);
    var t := s[a..];
    var b := TrailingSpaces(t);
    if t == [] then
      assert s == s[..a];
      assert StrippedBy(s, a, 0, []);
      []
    else
      assert !IsSpace(t[0]);
      assert b < |t|;
      var r := t[..|t| - b];
      assert r == s[a..|s| - b];
      assert t[|t| - b..] == s[|s| - b..];
      assert StrippedBy(s, a, b, r);
      assert !AllSpace(s) by { assert !IsSpace(s[a]); }
      r
  }

  /** Trimming a name padded with whitespace on both sides gives exactly the
      name between the padding. */
  lemma TrimPadded(lead: string, core: string, trail: string)
    requires AllSpace(lead) && AllSpace(trail)
    requires core != [] && !IsSpace(core[0]) && !IsSpace(core[|core| - 1])
    ensures Trim(lead + core + trail) == core
  {
    var s := lead + core + trail;
    assert s == lead + (core + trail);
    LeadingRun(lead, core + trail);
    assert s[|lead|..] == core + trail;
    TrailingRun(core, trail);
    assert (core + trail)[..|core|] == core;
  }

  /** A whitespace run preceded by a non-space (or nothing) is exactly the
      trailing run. */
  lemma {:induction false} TrailingRun(t: string, run: string)
    requires AllSpace(run)
    requires t == [] || !IsSpace(t[|t| - 1])
    ensures TrailingSpaces(t + run) == |run|
    decreases |run|
  {
    if run == [] {
      assert t + run == t;
    } else {
      var init := run[..|run| - 1];
      assert (t + run)[..|t + run| - 1] == t + init;
      TrailingRun(t, init);
    }
  }

  /** Trimming keeps text that neither starts nor ends with whitespace. */
  lemma TrimKeeps(s: string)
    requires s != [] && !IsSpace(s[0]) && !IsSpace(s[|s| - 1])
    ensures Trim(s) == s
  {
    assert LeadingSpaces(s) == 0;
    assert s[0..] == s;
    assert TrailingSpaces(s) == 0;
  }
}
