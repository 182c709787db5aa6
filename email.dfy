/**
  The `email` field. Two rules are checked in turn: the address must not be empty,
  and it must have the shape of an email address. When both pass, the address is
  lower-cased.
*/
module EmailField {
  import opened Text

  const RequiredMessage := "E-mail obrigatório!"
  const FormatMessage := "Formato de email inválido"

  predicate IsAsciiLetter(c: char) { IsAsciiUpper(c) || IsAsciiLower(c) }
  predicate IsAsciiAlnum(c: char) { IsAsciiLetter(c) || '0' <= c <= '9' }

  /** A character of the part before `@`. */
  predicate IsLocalChar(c: char) {
    IsAsciiAlnum(c) || c == '_' || c == '\'' || c == '+' || c == '-' || c == '.'
  }

  /** The last character before `@`: no dot and no apostrophe. */
  predicate IsLocalLastChar(c: char) {
    IsAsciiAlnum(c) || c == '_' || c == '+' || c == '-'
  }

  predicate IsLocalPart(s: string) {
    s != [] && s[0] != '.' && IsLocalLastChar(s[|s| - 1])
    && (forall i :: 0 <= i < |s| ==> IsLocalChar(s[i]))
    && !exists i :: 0 <= i < |s| - 1 && s[i] == '.' && s[i + 1] == '.'
  }

  /** A domain label: a letter or digit, then letters, digits and hyphens. */
  predicate IsLabel(s: string) {
    s != [] && IsAsciiAlnum(s[0]) && forall i :: 0 <= i < |s| ==> IsAsciiAlnum(s[i]) || s[i] == '-'
  }

  /** The top-level domain: two letters or more. */
  predicate IsTopLevel(s: string) {
    |s| >= 2 && forall i :: 0 <= i < |s| ==> IsAsciiLetter(s[i])
  }

  predicate IsDomain(s: string) {
    var labels := Split(s, '.');
    |labels| >= 2 && IsTopLevel(labels[|labels| - 1])
    && forall i :: 0 <= i < |labels| - 1 ==> IsLabel(labels[i])
  }

  /** The address shape of the email rule, the case-insensitive pattern
      `^(?!\.)(?!.*\.\.)([A-Z0-9_'+\-\.]*)[A-Z0-9_+-]@([A-Z0-9][A-Z0-9\-]*\.)+[A-Z]{2,}$`:
      exactly one `@`, a local part and a dotted domain. */
  predicate IsEmailShape(s: string) {
    var parts := Split(s, '@');
    |parts| == 2 && IsLocalPart(parts[0]) && IsDomain(parts[1])
  }

  /** The messages of the failing rules, in the order the rules are declared:
      every rule is checked, so an empty address fails both. */
  function EmailIssues(raw: string): (msgs: seq<string>)
    ensures msgs == [] <==> IsEmailShape(raw)
    ensures raw == [] ==> msgs == [RequiredMessage, FormatMessage]
    ensures raw != [] && !IsEmailShape(raw) ==> msgs == [FormatMessage]
  {
    EmptyNotEmail();
    (if Utf16Length(raw) < 1 then [RequiredMessage] else [])
    + (if !IsEmailShape(raw) then [FormatMessage] else [])
  }

  // ---------------------------------------------------------------------------
  // properties

  lemma EmptyNotEmail()
    ensures !IsEmailShape([])
  {
    assert Split([], '@') == [[]];
  }

  /** The pattern is case-insensitive: lower-casing never changes whether an
      address has the email shape, so checking before lower-casing is the same as
      checking after. */
  lemma {:induction false} ShapeIgnoresCase(s: string)
    ensures IsEmailShape(LowerStr(s)) == IsEmailShape(s)
  {
    var l := LowerStr(s);
    SplitLower(s, '@');
    var parts, lparts := Split(s, '@'), Split(l, '@');
    if |parts| == 2 {
      LocalPartIgnoresCase(parts[0]);
      DomainIgnoresCase(parts[1]);
    }
  }

  lemma LowerKeepsClasses(c: char)
    ensures IsLocalChar(Lower(c)) == IsLocalChar(c)
    ensures IsLocalLastChar(Lower(c)) == IsLocalLastChar(c)
    ensures IsAsciiAlnum(Lower(c)) == IsAsciiAlnum(c)
    ensures IsAsciiLetter(Lower(c)) == IsAsciiLetter(c)
    ensures Lower(c) == '.' <==> c == '.'
    ensures Lower(c) == '-' <==> c == '-'
    ensures Lower(c) == '@' <==> c == '@'
  {
  }

  lemma LocalPartIgnoresCase(s: string)
    ensures IsLocalPart(LowerStr(s)) == IsLocalPart(s)
  {
    var l := LowerStr(s);
    forall i | 0 <= i < |s| ensures IsLocalChar(l[i]) == IsLocalChar(s[i]) && (l[i] == '.' <==> s[i] == '.')
      && IsLocalLastChar(l[i]) == IsLocalLastChar(s[i])
    {
      LowerKeepsClasses(s[i]);
    }
  }

  lemma LabelIgnoresCase(s: string)
    ensures IsLabel(LowerStr(s)) == IsLabel(s)
    ensures IsTopLevel(LowerStr(s)) == IsTopLevel(s)
  {
    var l := LowerStr(s);
    forall i | 0 <= i < |s| ensures IsAsciiAlnum(l[i]) == IsAsciiAlnum(s[i])
      && IsAsciiLetter(l[i]) == IsAsciiLetter(s[i]) && (l[i] == '-' <==> s[i] == '-')
    {
      LowerKeepsClasses(s[i]);
    }
  }

  lemma {:induction false} DomainIgnoresCase(s: string)
    ensures IsDomain(LowerStr(s)) == IsDomain(s)
  {
    SplitLower(s, '.');
    var labels, llabels := Split(s, '.'), Split(LowerStr(s), '.');
    forall i | 0 <= i < |labels| ensures IsLabel(llabels[i]) == IsLabel(labels[i])
      && IsTopLevel(llabels[i]) == IsTopLevel(labels[i])
    {
      LabelIgnoresCase(labels[i]);
    }
  }

  /** Splitting commutes with lower-casing for a separator that lower-casing
      neither produces nor removes. */
  lemma {:induction false} SplitLower(s: string, sep: char)
    requires sep == '@' || sep == '.'
    ensures var parts, lparts := Split(s, sep), Split(LowerStr(s), sep);
      |lparts| == |parts| && forall i :: 0 <= i < |parts| ==> lparts[i] == LowerStr(parts[i])
  {
    if s == [] {
      assert LowerStr(s) == [] && LowerStr([]) == [];
    } else {
      SplitLower(s[1..], sep);
      SplitLowerStep(s, sep);
    }
  }

  /** One step of `SplitLower`: from the rest of the string to the whole. */
  lemma SplitLowerStep(s: string, sep: char)
    requires s != [] && (sep == '@' || sep == '.')
    requires var parts, lparts := Split(s[1..], sep), Split(LowerStr(s[1..]), sep);
      |lparts| == |parts| && forall i :: 0 <= i < |parts| ==> lparts[i] == LowerStr(parts[i])
    ensures var parts, lparts := Split(s, sep), Split(LowerStr(s), sep);
      |lparts| == |parts| && forall i :: 0 <= i < |parts| ==> lparts[i] == LowerStr(parts[i])
  {
    LowerKeepsClasses(s[0]);
    var l := LowerStr(s);
    assert l[0] == Lower(s[0]) && l[1..] == LowerStr(s[1..]);
    SplitCons(s, sep);
    SplitCons(l, sep);
    if s[0] == sep {
      PiecewiseLowerSep(Split(s[1..], sep), Split(l[1..], sep));
    } else {
      LowerCons(s[0], Split(s[1..], sep)[0]);
      PiecewiseLowerCons(s[0], Split(s[1..], sep), Split(l[1..], sep));
    }
  }

  /** Pieces lower-cased one by one stay so after a new empty first piece. */
  lemma PiecewiseLowerSep(rest: seq<string>, lrest: seq<string>)
    requires |lrest| == |rest| && forall i :: 0 <= i < |rest| ==> lrest[i] == LowerStr(rest[i])
    ensures var parts, lparts := [[]] + rest, [[]] + lrest;
      |lparts| == |parts| && forall i :: 0 <= i < |parts| ==> lparts[i] == LowerStr(parts[i])
  {
    var parts, lparts := [[]] + rest, [[]] + lrest;
    forall i | 0 <= i < |parts| ensures lparts[i] == LowerStr(parts[i]) {
      if i == 0 {
        assert LowerStr([]) == [];
      } else {
        assert parts[i] == rest[i - 1] && lparts[i] == lrest[i - 1];
      }
    }
  }

  /** Pieces lower-cased one by one stay so after a character joins the first piece. */
  lemma PiecewiseLowerCons(c: char, rest: seq<string>, lrest: seq<string>)
    requires |rest| >= 1
    requires |lrest| == |rest| && forall i :: 0 <= i < |rest| ==> lrest[i] == LowerStr(rest[i])
    ensures var parts, lparts := [[c] + rest[0]] + rest[1..], [[Lower(c)] + lrest[0]] + lrest[1..];
      |lparts| == |parts| && forall i :: 0 <= i < |parts| ==> lparts[i] == LowerStr(parts[i])
  {
    var parts, lparts := [[c] + rest[0]] + rest[1..], [[Lower(c)] + lrest[0]] + lrest[1..];
    forall i | 0 <= i < |parts| ensures lparts[i] == LowerStr(parts[i]) {
      if i == 0 {
        LowerCons(c, rest[0]);
      } else {
        assert parts[i] == rest[i] && lparts[i] == lrest[i];
      }
    }
  }

  lemma LowerCons(c: char, s: string)
    ensures LowerStr([c] + s) == [Lower(c)] + LowerStr(s)
  {
  }

  /** On success the email is the lower-cased input, and validating that value
      again reports nothing and changes nothing. */
  lemma {:induction false} LoweredEmailStaysValid(raw: string)
    requires EmailIssues(raw) == []
    ensures EmailIssues(LowerStr(raw)) == []
    ensures LowerStr(LowerStr(raw)) == LowerStr(raw)
  {
    ShapeIgnoresCase(raw);
    LowerStrIdempotent(raw);
  }

  /** An address has the email shape exactly when it holds one `@`, with a valid
      local part before it and a valid domain after it. */
  lemma {:induction false} EmailShapeAt(s: string)
    ensures IsEmailShape(s) <==>
      exists k :: 0 <= k < |s| && s[k] == '@' && '@' !in s[..k] && '@' !in s[k + 1..]
                  && IsLocalPart(s[..k]) && IsDomain(s[k + 1..])
  {
    if IsEmailShape(s) {
      var k := EmailShapeSplit(s);
      assert 0 <= k < |s| && s[k] == '@' && '@' !in s[..k] && '@' !in s[k + 1..]
             && IsLocalPart(s[..k]) && IsDomain(s[k + 1..]);
    } else {
      forall k | 0 <= k < |s| && s[k] == '@' && '@' !in s[..k] && '@' !in s[k + 1..]
        ensures !(IsLocalPart(s[..k]) && IsDomain(s[k + 1..]))
      {
        assert s == s[..k] + ['@'] + s[k + 1..];
        EmailShapeParts(s[..k], s[k + 1..]);
      }
    }
  }

  /** An address is its two `@`-free parts glued with `@`. */
  lemma EmailShapeSplit(s: string) returns (k: nat)
    requires IsEmailShape(s)
    ensures k < |s| && s[k] == '@' && '@' !in s[..k] && '@' !in s[k + 1..]
    ensures IsLocalPart(s[..k]) && IsDomain(s[k + 1..])
  {
    var parts := Split(s, '@');
    JoinSplit(s, '@');
    assert parts[1..] == [parts[1]];
    assert s == parts[0] + ['@'] + parts[1];
    k := |parts[0]|;
    assert s[..k] == parts[0] && s[k + 1..] == parts[1];
  }

  /** Gluing an `@`-free local part and domain with `@` gives an address exactly
      when both parts are valid. */
  lemma EmailShapeParts(local: string, domain: string)
    requires '@' !in local && '@' !in domain
    ensures IsEmailShape(local + ['@'] + domain) <==> IsLocalPart(local) && IsDomain(domain)
  {
    SplitPrefix(local, '@', domain);
    SplitFree(domain, '@');
  }

  /** A well-formed address. */
  lemma WellFormedExample(s: string)
    requires s == "ana@x.com"
    ensures IsEmailShape(s)
  {
    var local := s[..3];
    assert local == "ana" && s == local + "@x.com";
    XComAddress(local, s);
  }

  /** A valid local part followed by "@x.com" is an address. */
  lemma XComAddress(local: string, s: string)
    requires IsLocalPart(local) && '@' !in local && s == local + "@x.com"
    ensures IsEmailShape(s)
  {
    DomainExample();
    assert s == local + ['@'] + "x.com";
    EmailShapeParts(local, "x.com");
  }

  lemma DomainExample()
    ensures IsDomain("x.com")
  {
    SplitFree("com", '.');
    SplitPrefix("x", '.', "com");
    assert "x" + ['.'] + "com" == "x.com";
    assert IsLabel("x") && IsTopLevel("com");
  }

  /** An address without a domain reports the format message only. */
  lemma MissingDomainExample()
    ensures EmailIssues("ana@") == [FormatMessage]
  {
    SplitFree("ana", '@');
    SplitPrefix("ana", '@', "");
    assert "ana" + ['@'] + "" == "ana@";
    assert Split("", '.') == [[]];
    assert Split("ana@", '@')[1] == [];
    assert !IsDomain([]);
  }
}
