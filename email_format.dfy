/**
 * The address check both controllers apply: the regular expression
 * `^[^\s@]+@[^\s@]+\.[^\s@]+$`. IsEmail is the decision procedure the handlers use;
 * MatchesPattern reads the expression as a grammar (three runs of characters that are
 * neither white space nor `@`, separated by `@` and by a dot); IsEmailMatchesPattern
 * proves the two agree on every string.
 */
module EmailFormat {
  import opened Wrappers
  import opened JsStrings

  /** `[^\s@]`: a character that is neither white space nor `@`. */
  predicate IsAddressChar(c: char) {
    !IsJsSpace(c) && c != '@'
  }

  predicate AllAddressChars(s: string) {
    forall i :: 0 <= i < |s| ==> IsAddressChar(s[i])
  }

  /** `[^\s@]+`: one or more address characters. */
  predicate IsRun(s: string) {
    |s| > 0 && AllAddressChars(s)
  }

  /** The expression as a grammar: s is run, `@`, run, `.`, run, with nothing before or after. */
  ghost predicate MatchesPattern(s: string) {
    exists i, j :: 0 <= i < j < |s| && s[i] == '@' && s[j] == '.'
      && IsRun(s[..i]) && IsRun(s[i + 1..j]) && IsRun(s[j + 1..])
  }

  /** The first position of c in s. */
  function IndexOf(s: string, c: char): (r: Option<nat>)
    ensures r.None? <==> c !in s
    ensures r.Some? ==> r.value < |s| && s[r.value] == c && c !in s[..r.value]
  {
    if s == [] then None
    else if s[0] == c then Some(0)
    else
      match IndexOf(s[1..], c)
      case None => None
      case Some(k) =>
        assert s[..k + 1] == [s[0]] + s[1..][..k];
        Some(k + 1)
  }

  /** The test the handlers run: one `@` with a run before it, and after it no white space, no
      second `@`, and a dot that is neither the first nor the last character. */
  predicate IsEmail(s: string)
    ensures IsEmail(s) ==> |s| >= 5 && '@' in s && '.' in s
    ensures IsEmail(s) ==> forall k :: 0 <= k < |s| ==> !IsJsSpace(s[k])
  {
    match IndexOf(s, '@')
    case None => false
    case Some(i) =>
      var domain := s[i + 1..];
      IsRun(s[..i]) && AllAddressChars(domain) && |domain| >= 3 && '.' in domain[1..|domain| - 1]
  }

  /** The test accepts only strings the expression matches. */
  lemma IsEmailSound(s: string)
    requires IsEmail(s)
    ensures MatchesPattern(s)
  {
    var i := IndexOf(s, '@').value;
    var domain := s[i + 1..];
    var inner := domain[1..|domain| - 1];
    var k :| 0 <= k < |inner| && inner[k] == '.';
    var j := i + 2 + k;
    assert s[j] == '.';
    assert s[i + 1..j] == domain[..k + 1];
    assert s[j + 1..] == domain[k + 2..];
    assert IsRun(s[i + 1..j]);
    assert IsRun(s[j + 1..]);
  }

  lemma RunHasNoAt(r: string)
    requires IsRun(r)
    ensures '@' !in r
  {
    forall m | 0 <= m < |r| ensures r[m] != '@' {
      assert IsAddressChar(r[m]);
    }
  }

  lemma RunsJoin(a: string, c: char, b: string)
    requires AllAddressChars(a) && IsAddressChar(c) && AllAddressChars(b)
    ensures AllAddressChars(a + [c] + b)
  {
    var d := a + [c] + b;
    forall m | 0 <= m < |d| ensures IsAddressChar(d[m]) {
      if m < |a| {
        assert d[m] == a[m];
      } else if m > |a| {
        assert d[m] == b[m - |a| - 1];
      }
    }
  }

  /** The test accepts every string the expression matches. */
  lemma IsEmailComplete(s: string, i: nat, j: nat)
    requires i < j < |s| && s[i] == '@' && s[j] == '.'
    requires IsRun(s[..i]) && IsRun(s[i + 1..j]) && IsRun(s[j + 1..])
    ensures IsEmail(s)
  {
    RunHasNoAt(s[..i]);
    assert IndexOf(s, '@') == Some(i);
    var domain := s[i + 1..];
    assert domain == s[i + 1..j] + [s[j]] + s[j + 1..];
    RunsJoin(s[i + 1..j], s[j], s[j + 1..]);
    assert domain[1..|domain| - 1][j - i - 2] == '.';
  }

  /** The decision procedure and the grammar agree on every string. */
  lemma IsEmailMatchesPattern(s: string)
    ensures IsEmail(s) <==> MatchesPattern(s)
  {
    if IsEmail(s) {
      IsEmailSound(s);
    }
    if MatchesPattern(s) {
      var i, j :| 0 <= i < j < |s| && s[i] == '@' && s[j] == '.'
        && IsRun(s[..i]) && IsRun(s[i + 1..j]) && IsRun(s[j + 1..]);
      IsEmailComplete(s, i, j);
    }
  }

  /** An address of the usual shape passes. */
  lemma IsEmailExample()
    ensures IsEmail("ana@x.com")
  {
    var s := "ana@x.com";
    assert s[..3] == "ana" && s[4..5] == "x" && s[6..] == "com";
    IsEmailComplete(s, 3, 5);
  }
}
