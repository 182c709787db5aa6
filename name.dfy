/**
  The `name` field. Its one rule asks for a non-empty raw string. When the rule
  passes, a transform trims the name, cuts it at every single space, upper-cases
  the first character of each word, keeps the rest of each word as typed, and
  glues the words back together with one space between neighbours.
*/
module NameField {
  import opened Text

  datatype Option<T> = None | Some(value: T)

  const RequiredMessage := "O nome é obrigatório!"

  /** The messages of the failing rules, in the order the rules are declared. */
  function NameIssues(raw: string): (msgs: seq<string>)
    ensures msgs == [] <==> raw != []
    ensures msgs != [] ==> msgs == [RequiredMessage]
  {
    if Utf16Length(raw) < 1 then [RequiredMessage] else []
  }

  /** What the transform callback gives back: the new value, or the `TypeError`
      thrown when `word[0]` is `undefined` because a word is empty. */
  datatype Transformed = Value(name: string) | TypeError

  /** One word with its first character upper-cased; needs a non-empty word. */
  function CapitaliseWord(word: string): (r: string)
    requires word != []
    ensures |r| == |word| && r[0] == Upper(word[0])
    ensures forall i :: 0 < i < |word| ==> r[i] == word[i]
  {
    [Upper(word[0])] + word[1..]
  }

  /** The `map` over the words: fails as soon as it meets an empty word. */
  function CapitaliseAll(words: seq<string>): (r: Option<seq<string>>)
    ensures r.Some? <==> forall i :: 0 <= i < |words| ==> words[i] != []
    ensures r.Some? ==> |r.value| == |words|
    ensures r.Some? ==> forall i :: 0 <= i < |words| ==> r.value[i] == CapitaliseWord(words[i])
  {
    if words == [] then Some([])
    else if words[0] == [] then None
    else
      match CapitaliseAll(words[1..])
      case None => None
      case Some(tail) => Some([CapitaliseWord(words[0])] + tail)
  }

  /** The words of the trimmed name, cut at every single space. */
  function Words(raw: string): seq<string> {
    Split(Trim(raw), ' ')
  }

  /** The transform of the name field: it throws exactly when a word of the trimmed
      name is empty, and otherwise the result starts with the first word's first
      character upper-cased. */
  function TransformName(raw: string): (r: Transformed)
    ensures r.TypeError? <==> exists i :: 0 <= i < |Words(raw)| && Words(raw)[i] == []
    ensures r.Value? ==> r.name != [] && r.name[0] == Upper(Words(raw)[0][0])
  {
    var words := Words(raw);
    match CapitaliseAll(words)
    case None =>
      assert exists i :: 0 <= i < |words| && words[i] == [];
      TypeError
    case Some(capitalised) => Value(Join(capitalised, ' '))
  }

  // ---------------------------------------------------------------------------
  // reference definitions

  /** Position `i` of `t` begins a word: it is the first position or follows a space. */
  predicate StartsWord(t: string, i: int)
    requires 0 <= i < |t|
  {
    i == 0 || t[i - 1] == ' '
  }

  /** `t` with the first character of every space-separated word upper-cased and
      every other character left as it is. */
  function Capitalised(t: string): (r: string)
    ensures |r| == |t|
  {
    seq(|t|, i requires 0 <= i < |t| => if StartsWord(t, i) then Upper(t[i]) else t[i])
  }

  /** The trimmed name has an empty word: it is empty or holds two spaces in a row
      (trimming already removed spaces at either end). */
  predicate HasEmptyWord(t: string) {
    t == [] || exists i :: 0 <= i < |t| - 1 && t[i] == ' ' && t[i + 1] == ' '
  }

  // ---------------------------------------------------------------------------
  // properties

  /** The transform throws exactly when the trimmed name has an empty word, and
      otherwise upper-cases the word starts of the trimmed name and nothing else. */
  lemma {:induction false} TransformNameSpec(raw: string)
    ensures TransformName(raw) == if HasEmptyWord(Trim(raw)) then TypeError else Value(Capitalised(Trim(raw)))
  {
    var t := Trim(raw);
    var words := Split(t, ' ');
    SplitEmptyPiece(t, ' ');
    assert HasEmptyPiece(t, ' ') <==> HasEmptyWord(t) by {
      if t != [] {
        assert t[0] != ' ' && t[|t| - 1] != ' ';
      }
    }
    if !HasEmptyWord(t) {
      JoinSplit(t, ' ');
      CapitaliseJoin(words);
    }
  }

  /** Capitalising word by word and then joining equals capitalising the joined words. */
  lemma {:induction false} CapitaliseJoin(words: seq<string>)
    requires |words| >= 1
    requires forall i :: 0 <= i < |words| ==> words[i] != [] && ' ' !in words[i]
    ensures CapitaliseAll(words).Some?
    ensures Join(CapitaliseAll(words).value, ' ') == Capitalised(Join(words, ' '))
  {
    var w := words[0];
    CapitalisedWord(w);
    if |words| > 1 {
      var rest := words[1..];
      CapitaliseJoin(rest);
      CapitalisedConcat(w, Join(rest, ' '));
      assert CapitaliseAll(words).value == [CapitaliseWord(w)] + CapitaliseAll(rest).value;
      assert CapitaliseAll(words).value[1..] == CapitaliseAll(rest).value;
    }
  }

  /** A single non-empty word without spaces changes only at its first character. */
  lemma CapitalisedWord(w: string)
    requires w != [] && ' ' !in w
    ensures Capitalised(w) == CapitaliseWord(w)
  {
    forall i | 0 < i < |w| ensures !StartsWord(w, i) {
      assert w[i - 1] != ' ';
    }
  }

  /** Capitalising distributes over a space. */
  lemma CapitalisedConcat(a: string, b: string)
    ensures Capitalised(a + [' '] + b) == Capitalised(a) + [' '] + Capitalised(b)
  {
    var s := a + [' '] + b;
    var l := Capitalised(s);
    var r := Capitalised(a) + [' '] + Capitalised(b);
    UpperKeepsNonLetters(' ');
    forall i | 0 <= i < |s| ensures l[i] == r[i] {
      if i < |a| {
        assert s[i] == a[i];
        assert i > 0 ==> s[i - 1] == a[i - 1];
      } else if i > |a| {
        assert s[i] == b[i - |a| - 1];
        assert i - 1 > |a| ==> s[i - 1] == b[i - |a| - 2];
      }
    }
  }

  /** What a successful transform gives: the trimmed name, of the same length, with
      the same spaces, where only word starts may change and each becomes upper-case. */
  lemma {:induction false} TransformNameShape(raw: string)
    requires TransformName(raw).Value?
    ensures var t, r := Trim(raw), TransformName(raw).name;
      |r| == |t| && r != []
      && (forall i :: 0 <= i < |t| ==> (r[i] == ' ' <==> t[i] == ' '))
      && (forall i :: 0 <= i < |t| && StartsWord(t, i) ==> r[i] == Upper(t[i]))
      && (forall i :: 0 <= i < |t| && !StartsWord(t, i) ==> r[i] == t[i])
  {
    TransformNameSpec(raw);
    var t := Trim(raw);
    forall i | 0 <= i < |t| ensures Capitalised(t)[i] == ' ' <==> t[i] == ' ' {
      UpperKeepsNonLetters(t[i]);
    }
  }

  /** The transform is idempotent: transforming its own output gives the output back. */
  lemma {:induction false} TransformNameIdempotent(raw: string)
    requires TransformName(raw).Value?
    ensures TransformName(TransformName(raw).name) == TransformName(raw)
  {
    TransformNameSpec(raw);
    var t := Trim(raw);
    assert !HasEmptyWord(t);
    var r := Capitalised(t);
    assert TransformName(raw).name == r;
    CapitalisedFixpoint(t);
    TrimFixed(r);
    TransformNameSpec(r);
  }

  /** Capitalising a trimmed name without empty words gives a trimmed name without
      empty words that capitalising leaves as it is. */
  lemma CapitalisedFixpoint(t: string)
    requires t != [] && !IsWs(t[0]) && !IsWs(t[|t| - 1]) && !HasEmptyWord(t)
    ensures var r := Capitalised(t);
      !IsWs(r[0]) && !IsWs(r[|r| - 1]) && !HasEmptyWord(r) && Capitalised(r) == r
  {
    var r := Capitalised(t);
    assert r[0] == Upper(t[0]);
    UpperKeepsNonLetters(t[0]);
    assert !IsWs(r[0]);
    assert r[|r| - 1] == t[|t| - 1] || r[|r| - 1] == Upper(t[|t| - 1]);
    UpperKeepsNonLetters(t[|t| - 1]);
    assert !IsWs(r[|r| - 1]);
    CapitalisedSpaces(t);
    assert |r| == |t|;
    CapitalisedTwice(t);
  }

  /** Capitalising keeps every space where it was and adds none. */
  lemma CapitalisedSpaces(t: string)
    ensures forall i :: 0 <= i < |t| ==> (Capitalised(t)[i] == ' ' <==> t[i] == ' ')
  {
    forall i | 0 <= i < |t| ensures Capitalised(t)[i] == ' ' <==> t[i] == ' ' {
      UpperKeepsNonLetters(t[i]);
    }
  }

  /** Capitalising twice is capitalising once. */
  lemma CapitalisedTwice(t: string)
    ensures Capitalised(Capitalised(t)) == Capitalised(t)
  {
    var r := Capitalised(t);
    CapitalisedSpaces(t);
    forall i | 0 <= i < |r| ensures Capitalised(r)[i] == r[i] {
      UpperKeepsNonLetters(t[i]);
      assert StartsWord(r, i) <==> StartsWord(t, i);
    }
  }

  /** A name without spaces after trimming gets no space added: only its first
      character is upper-cased. */
  lemma {:induction false} SingleWord(raw: string)
    requires Trim(raw) != [] && ' ' !in Trim(raw)
    ensures TransformName(raw) == Value(CapitaliseWord(Trim(raw)))
  {
    TransformNameSpec(raw);
    CapitalisedWord(Trim(raw));
  }

  /** A white-space-only name is not empty, so it passes the rule, and then the
      transform throws. */
  lemma {:induction false} BlankNameThrows(raw: string)
    requires raw != [] && AllWs(raw)
    ensures NameIssues(raw) == [] && TransformName(raw) == TypeError
  {
    TrimEmpty(raw);
    TransformNameSpec(raw);
  }

  /** Two spaces in a row inside the name leave an empty word, and the transform throws. */
  lemma {:induction false} DoubleSpaceThrows(a: string, b: string)
    requires a != [] && !IsWs(a[0]) && b != [] && !IsWs(b[|b| - 1])
    ensures NameIssues(a + "  " + b) == [] && TransformName(a + "  " + b) == TypeError
  {
    var raw := a + "  " + b;
    assert raw[0] == a[0] && raw[|raw| - 1] == b[|b| - 1];
    TrimFixed(raw);
    assert raw[|a|] == ' ' && raw[|a| + 1] == ' ';
    TransformNameSpec(raw);
  }

  /** Only the first letter's case is touched: "JOHN" stays "JOHN" ... */
  lemma UpperCaseNameKept(w: string)
    requires w == "JOHN"
    ensures TransformName(w) == Value("JOHN")
  {
    assert ' ' !in w;
    TrimFixed(w);
    SingleWord(w);
    assert [Upper(w[0])] + w[1..] == w;
  }

  /** ... and "joHN" becomes "JoHN". */
  lemma MixedCaseNameCapitalised(w: string)
    requires w == "joHN"
    ensures TransformName(w) == Value("JoHN")
  {
    assert ' ' !in w;
    TrimFixed(w);
    SingleWord(w);
    assert Upper('j') == 'J';
    assert [Upper(w[0])] + w[1..] == "JoHN";
  }
}
