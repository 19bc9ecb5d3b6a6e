/** English pluralisation of concept names by an ordered table of
    (find pattern, rewrite) rules; the first rule whose pattern matches wins. */
module Inflection {
  import opened Wrappers

  /** True when the word ends with a newline. Python's `$` (without MULTILINE)
      matches at the very end of the word and also just before such a final newline. */
  predicate HasFinalNewline(w: string) {
    |w| > 0 && w[|w| - 1] == '\n'
  }

  /** The text that ends where `$` first matches: the word without its final newline. */
  function Stem(w: string): (s: string)
    ensures w == if HasFinalNewline(w) then s + "\n" else s
  {
    if HasFinalNewline(w) then w[..|w| - 1] else w
  }

  /** `re.sub("$", suffix, w)`: the suffix goes in at every position where `$` matches. */
  function AppendAtEnd(w: string, suffix: string): string {
    if HasFinalNewline(w) then Stem(w) + suffix + "\n" + suffix else w + suffix
  }

  /** The four rules of the table, in their order. */
  datatype Rule =
    | SibilantEs     // "[sxz]$"             -> add "es"
    | ConsonantHEs   // "[^aeioudgkprt]h$"   -> add "es"
    | ConsonantYIes  // "[^aeiou]y$"         -> "y$" becomes "ies"
    | DefaultS       // "$"                  -> add "s"

  const Rules: seq<Rule> := [SibilantEs, ConsonantHEs, ConsonantYIes, DefaultS]

  /** The character class `[sxz]`. */
  predicate IsSibilant(c: char) {
    c == 's' || c == 'x' || c == 'z'
  }

  /** The characters `[^aeioudgkprt]` excludes. */
  predicate HBlocker(c: char) {
    c == 'a' || c == 'e' || c == 'i' || c == 'o' || c == 'u' || c == 'd' || c == 'g' || c == 'k' || c == 'p' || c == 'r' || c == 't'
  }

  /** The characters `[^aeiou]` excludes. */
  predicate IsVowel(c: char) {
    c == 'a' || c == 'e' || c == 'i' || c == 'o' || c == 'u'
  }

  /** The find pattern of a rule, as `re.search` applies it. */
  predicate Finds(rule: Rule, w: string) {
    var s := Stem(w);
    match rule
    case SibilantEs => |s| >= 1 && IsSibilant(s[|s| - 1])
    case ConsonantHEs => |s| >= 2 && s[|s| - 1] == 'h' && !HBlocker(s[|s| - 2])
    case ConsonantYIes => |s| >= 2 && s[|s| - 1] == 'y' && !IsVowel(s[|s| - 2])
    case DefaultS => true
  }

  /** The rewrite of a rule, as `re.sub` applies it. */
  function Rewrite(rule: Rule, w: string): string {
    match rule
    case SibilantEs => AppendAtEnd(w, "es")
    case ConsonantHEs => AppendAtEnd(w, "es")
    case ConsonantYIes =>
      var s := Stem(w);
      if |s| >= 1 && s[|s| - 1] == 'y' then
        s[..|s| - 1] + "ies" + (if HasFinalNewline(w) then "\n" else "")
      else w
    case DefaultS => AppendAtEnd(w, "s")
  }

  /** The loop of `plural`: the rewrite of the first rule that finds, or None. */
  function FirstRule(rules: seq<Rule>, w: string): (r: Option<string>)
    ensures r.Some? ==> exists i | 0 <= i < |rules| :: Finds(rules[i], w) && r.value == Rewrite(rules[i], w)
    ensures r.None? <==> forall i | 0 <= i < |rules| :: !Finds(rules[i], w)
  {
    if rules == [] then None
    else if Finds(rules[0], w) then Some(Rewrite(rules[0], w))
    else
      var r := FirstRule(rules[1..], w);
      assert forall i | 1 <= i < |rules| :: rules[i] == rules[1..][i - 1];
      r
  }

  /** `plural(noun)`. It never returns None, because the last rule finds every word. */
  function Plural(noun: string): (r: Option<string>)
    ensures r.Some?
  {
    assert Finds(Rules[3], noun);
    FirstRule(Rules, noun)
  }

  /** The table tried in order: the first rule that finds decides the plural. */
  lemma {:induction false} PluralTriesRulesInOrder(w: string)
    ensures Plural(w) == Some(
      if Finds(SibilantEs, w) then Rewrite(SibilantEs, w)
      else if Finds(ConsonantHEs, w) then Rewrite(ConsonantHEs, w)
      else if Finds(ConsonantYIes, w) then Rewrite(ConsonantYIes, w)
      else Rewrite(DefaultS, w))
  {
    var r1, r2, r3 := Rules[1..], Rules[2..], Rules[3..];
    assert r1 == [ConsonantHEs, ConsonantYIes, DefaultS] && r1[1..] == r2;
    assert r2 == [ConsonantYIes, DefaultS] && r2[1..] == r3;
    assert r3 == [DefaultS];
    assert FirstRule(r3, w) == Some(Rewrite(DefaultS, w));
    assert FirstRule(r2, w) == if Finds(ConsonantYIes, w) then Some(Rewrite(ConsonantYIes, w)) else FirstRule(r3, w);
    assert FirstRule(r1, w) == if Finds(ConsonantHEs, w) then Some(Rewrite(ConsonantHEs, w)) else FirstRule(r2, w);
  }

  /** The rule table read as plain English, for a word without a final newline:
      s/x/z take "es"; an "h" after anything but a, e, i, o, u, d, g, k, p, r, t takes "es";
      a "y" after a non-vowel becomes "ies"; every other word takes "s". */
  lemma PluralOfPlainWord(w: string)
    requires !HasFinalNewline(w)
    ensures |w| >= 1 && IsSibilant(w[|w| - 1]) ==> Plural(w) == Some(w + "es")
    ensures |w| >= 2 && w[|w| - 1] == 'h' && !HBlocker(w[|w| - 2]) ==> Plural(w) == Some(w + "es")
    ensures |w| >= 2 && w[|w| - 1] == 'y' && !IsVowel(w[|w| - 2]) ==> Plural(w) == Some(w[..|w| - 1] + "ies")
    ensures !(|w| >= 1 && IsSibilant(w[|w| - 1]))
         && !(|w| >= 2 && w[|w| - 1] == 'h' && !HBlocker(w[|w| - 2]))
         && !(|w| >= 2 && w[|w| - 1] == 'y' && !IsVowel(w[|w| - 2]))
         ==> Plural(w) == Some(w + "s")
  {
    assert Stem(w) == w;
    PluralTriesRulesInOrder(w);
    if |w| >= 2 && w[|w| - 1] == 'y' && !IsVowel(w[|w| - 2]) {
      assert !Finds(SibilantEs, w) && !Finds(ConsonantHEs, w) && Finds(ConsonantYIes, w);
      assert Rewrite(ConsonantYIes, w) == w[..|w| - 1] + "ies" + "";
      assert w[..|w| - 1] + "ies" + "" == w[..|w| - 1] + "ies";
    }
  }

  /** For a word without a final newline the plural is longer than the word,
      keeps all of it but possibly its last letter, and always ends in "s". */
  lemma PluralShape(w: string)
    requires !HasFinalNewline(w)
    ensures var p := Plural(w).value;
      && |p| > |w|
      && p[|p| - 1] == 's'
      && (|w| >= 1 ==> p[..|w| - 1] == w[..|w| - 1])
  {
    PluralOfPlainWord(w);
  }

  /** With a final newline, the "add" rules add their suffix twice, around the newline
      (`re.sub("$", ...)` replaces both places where `$` matches), while the "ies" rule
      keeps the newline at the end. */
  lemma PluralWithFinalNewline(u: string)
    requires !HasFinalNewline(u)
    ensures var p := Plural(u).value;
      Plural(u + "\n") == Some(
        if |u| >= 2 && u[|u| - 1] == 'y' && !IsVowel(u[|u| - 2]) then p + "\n"
        else p + "\n" + p[|u|..])
  {
    var w := u + "\n";
    assert HasFinalNewline(w) && Stem(w) == u;
    PluralOfPlainWord(u);
    PluralTriesRulesInOrder(w);
  }

  /** The example of the rendered query text: a Company concept reads as "Companies". */
  lemma PluralOfCompany()
    ensures Plural("Company") == Some("Companies")
  {
    var w := "Company";
    assert w[6] == 'y' && w[5] == 'n';
    PluralOfPlainWord(w);
    assert w[..6] == "Compan";
    assert "Compan" + "ies" == "Companies";
  }
}
