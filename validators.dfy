/**
 * Word validation: the check chain a raw chat message goes through before any
 * storage or dictionary lookup. The first failing check decides the outcome.
 */
module Validators {
  import opened Wrappers
  import opened Text
  import opened Constants

  /** Longest word accepted; it matches the width of the stored `word` column. */
  const MaxWordLength := 70

  predicate IsEnglishLetter(c: char)
  {
    'a' <= c <= 'z' || 'A' <= c <= 'Z'
  }

  /** The character class `[a-zA-Z-]`. */
  predicate InBaseClass(c: char)
  {
    IsEnglishLetter(c) || c == '-'
  }

  predicate AllInBaseClass(w: string)
  {
    forall i :: 0 <= i < |w| ==> InBaseClass(w[i])
  }

  predicate AllHyphens(w: string)
  {
    forall i :: 0 <= i < |w| ==> w[i] == '-'
  }

  predicate AllLetters(p: string)
  {
    forall i :: 0 <= i < |p| ==> IsEnglishLetter(p[i])
  }

  /**
   * A full match of `^(?!-+$)[a-zA-Z-]{2,}$`: at least two characters, all from
   * the class, and not hyphens only (the negative lookahead).
   */
  predicate MatchesBaseRegex(w: string): (b: bool)
    ensures b <==> |w| >= 2 && AllInBaseClass(w) && exists i :: 0 <= i < |w| && IsEnglishLetter(w[i])
  {
    |w| >= 2 && AllInBaseClass(w) && !AllHyphens(w)
  }

  /** Python's `s.split("-")`: the pieces between hyphens, empty ones included. */
  function Split(s: string): (parts: seq<string>)
    ensures |parts| >= 1
    decreases |s|
  {
    if s == [] then
      [[]]
    else
      var rest := Split(s[1..]);
      if s[0] == '-' then [[]] + rest else [[s[0]] + rest[0]] + rest[1..]
  }

  /** `"-".join(parts)`. */
  function Join(parts: seq<string>): string
    requires |parts| >= 1
    decreases |parts|
  {
    if |parts| == 1 then parts[0] else parts[0] + "-" + Join(parts[1..])
  }

  /** Some piece between hyphens is shorter than two characters. */
  predicate HasShortPart(w: string)
  {
    var parts := Split(w);
    exists k :: 0 <= k < |parts| && |parts[k]| < 2
  }

  /** The validator's state: the stripped word, fixed when it is built. */
  datatype WordValidator = WordValidator(word: string)
  {
    /** The check chain; the first check that fails decides the outcome. */
    function Validate(): (r: ValidationResult)
      ensures r == Empty <==> word == []
      ensures r == TooLong <==> |word| > MaxWordLength
      ensures r == NotEnglish <==> 0 < |word| <= MaxWordLength && !MatchesBaseRegex(word)
      ensures r == InvalidParts <==> |word| <= MaxWordLength && MatchesBaseRegex(word) && !AllRuns(Split(word))
      ensures r == Valid <==> |word| <= MaxWordLength && AllRuns(Split(word))
    {
      RegexAndPartsIffRuns(word);
      if word == [] then Empty
      else if |word| > MaxWordLength then TooLong
      else if !MatchesBaseRegex(word) then NotEnglish
      else if '-' in word && HasShortPart(word) then InvalidParts
      else Valid
    }
  }

  /** `WordValidator(raw)`: the constructor strips the input once. */
  function NewWordValidator(raw: string): (v: WordValidator)
    ensures |v.word| <= |raw| && IsTrimmed(v.word)
    ensures v.word == [] <==> AllSpace(raw)
    ensures Strip(v.word) == v.word
  {
    StripEmptyIffAllSpace(raw);
    StripIdempotent(raw);
    WordValidator(Strip(raw))
  }

  /**
   * `validate_word`: strip, validate (which strips again), and hand back the
   * stripped word, not lower-cased, only when it is valid. The rejection reply
   * that the bot sends is I/O and is described by `Message`.
   */
  function ValidateWord(raw: string): (r: Option<string>)
    ensures r.Some? <==> NewWordValidator(raw).Validate() == Valid
    ensures r.Some? ==> r.value == Strip(raw) && |r.value| <= MaxWordLength
    ensures r.Some? ==> IsTrimmed(r.value) && MatchesBaseRegex(r.value)
  {
    var word := Strip(raw);
    StripIdempotent(raw);
    assert NewWordValidator(word) == NewWordValidator(raw);
    var validation := NewWordValidator(word).Validate();
    if validation != Valid then None else Some(word)
  }

  // ---------------------------------------------------------------------------
  // Splitting on hyphens

  /** No piece contains a hyphen. */
  lemma {:induction false} SplitPiecesHyphenFree(s: string)
    ensures forall k :: 0 <= k < |Split(s)| ==> '-' !in Split(s)[k]
    decreases |s|
  {
    if s != [] {
      SplitPiecesHyphenFree(s[1..]);
      var rest := Split(s[1..]);
      if s[0] != '-' {
        var head := [s[0]] + rest[0];
        assert '-' !in head by {
          assert forall i :: 1 <= i < |head| ==> head[i] == rest[0][i - 1];
        }
        assert forall k :: 1 <= k < |Split(s)| ==> Split(s)[k] == rest[k];
      } else {
        assert forall k :: 1 <= k < |Split(s)| ==> Split(s)[k] == rest[k - 1];
      }
    }
  }

  /** Joining the pieces with hyphens gives back the word. */
  lemma {:induction false} SplitJoin(s: string)
    ensures Join(Split(s)) == s
    decreases |s|
  {
    if s != [] {
      var rest := Split(s[1..]);
      SplitJoin(s[1..]);
      if s[0] == '-' {
        assert ([[]] + rest)[1..] == rest;
        assert s == "-" + s[1..];
      } else if |rest| == 1 {
        assert s == [s[0]] + s[1..];
      } else {
        var parts := Split(s);
        assert parts[1..] == rest[1..];
        assert Join(rest) == rest[0] + "-" + Join(rest[1..]);
        assert s == [s[0]] + s[1..];
      }
    }
  }

  /** One step of `Split`: the first character either starts a new piece or extends the first one. */
  lemma SplitCons(c: char, t: string)
    ensures Split([c] + t)
         == if c == '-' then [[]] + Split(t) else [[c] + Split(t)[0]] + Split(t)[1..]
  {
    assert ([c] + t)[0] == c && ([c] + t)[1..] == t;
  }

  /** There is one piece more than there are hyphens. */
  lemma {:induction false} SplitCount(s: string)
    ensures |Split(s)| == multiset(s)['-'] + 1
    decreases |s|
  {
    if s != [] {
      SplitCount(s[1..]);
      assert s == [s[0]] + s[1..];
      assert multiset(s) == multiset([s[0]]) + multiset(s[1..]);
    }
  }

  /** A hyphen in the middle separates the pieces of either side. */
  lemma {:induction false} SplitAppend(a: string, b: string)
    ensures Split(a + "-" + b) == Split(a) + Split(b)
    decreases |a|
  {
    if a == [] {
      assert a + "-" + b == ['-'] + b;
      SplitCons('-', b);
    } else {
      var c, t := a[0], a[1..];
      var u := t + "-" + b;
      assert a == [c] + t;
      assert a + "-" + b == [c] + u;
      SplitAppend(t, b);
      SplitCons(c, u);
      SplitCons(c, t);
      MergeFirstPiece(c, Split(t), Split(b));
    }
  }

  /** The list algebra behind `SplitAppend`: extending the first piece commutes with appending pieces. */
  lemma MergeFirstPiece(c: char, rt: seq<string>, rb: seq<string>)
    requires |rt| >= 1
    ensures [[c] + (rt + rb)[0]] + (rt + rb)[1..] == ([[c] + rt[0]] + rt[1..]) + rb
    ensures [[]] + (rt + rb) == ([[]] + rt) + rb
  {
    assert (rt + rb)[0] == rt[0];
    assert (rt + rb)[1..] == rt[1..] + rb;
  }

  /** A word without hyphens is a single piece. */
  lemma {:induction false} SplitWithoutHyphen(s: string)
    requires '-' !in s
    ensures Split(s) == [s]
    decreases |s|
  {
    if s != [] {
      assert s[0] in s;
      assert forall c :: c in s[1..] ==> c in s;
      SplitWithoutHyphen(s[1..]);
      assert s == [s[0]] + s[1..];
    }
  }

  /** Splitting hyphen-free pieces joined by hyphens gives back the pieces. */
  lemma {:induction false} JoinSplit(parts: seq<string>)
    requires |parts| >= 1
    requires forall k :: 0 <= k < |parts| ==> '-' !in parts[k]
    ensures Split(Join(parts)) == parts
    decreases |parts|
  {
    if |parts| == 1 {
      SplitWithoutHyphen(parts[0]);
    } else {
      JoinSplit(parts[1..]);
      SplitWithoutHyphen(parts[0]);
      SplitAppend(parts[0], Join(parts[1..]));
      assert parts == [parts[0]] + parts[1..];
    }
  }

  predicate PartsAllLetters(parts: seq<string>)
  {
    forall k :: 0 <= k < |parts| ==> AllLetters(parts[k])
  }

  lemma PartsAllLettersCons(p: string, parts: seq<string>)
    ensures PartsAllLetters([p] + parts) <==> AllLetters(p) && PartsAllLetters(parts)
  {
    var all := [p] + parts;
    assert all[0] == p;
    if AllLetters(p) && PartsAllLetters(parts) {
      forall k | 0 <= k < |all| ensures AllLetters(all[k]) {
        if k > 0 { assert all[k] == parts[k - 1]; }
      }
    }
    if PartsAllLetters(all) {
      forall k | 0 <= k < |parts| ensures AllLetters(parts[k]) {
        assert parts[k] == all[k + 1];
      }
    }
  }

  lemma AllLettersCons(c: char, p: string)
    ensures AllLetters([c] + p) <==> IsEnglishLetter(c) && AllLetters(p)
  {
    var s := [c] + p;
    assert s[0] == c;
    if IsEnglishLetter(c) && AllLetters(p) {
      forall i | 0 <= i < |s| ensures IsEnglishLetter(s[i]) {
        if i > 0 { assert s[i] == p[i - 1]; }
      }
    }
    if AllLetters(s) {
      forall i | 0 <= i < |p| ensures IsEnglishLetter(p[i]) {
        assert p[i] == s[i + 1];
      }
    }
  }

  lemma AllInBaseClassCons(w: string)
    requires w != []
    ensures AllInBaseClass(w) <==> InBaseClass(w[0]) && AllInBaseClass(w[1..])
  {
    assert forall i :: 1 <= i < |w| ==> w[i] == w[1..][i - 1];
  }

  /** Every character is a letter or a hyphen exactly when every piece is letters only. */
  lemma {:induction false} SplitLetters(w: string)
    ensures AllInBaseClass(w) <==> PartsAllLetters(Split(w))
    decreases |w|
  {
    if w != [] {
      SplitLetters(w[1..]);
      AllInBaseClassCons(w);
      var rest := Split(w[1..]);
      if w[0] == '-' {
        PartsAllLettersCons([], rest);
      } else {
        PartsAllLettersCons(rest[0], rest[1..]);
        assert rest == [rest[0]] + rest[1..];
        PartsAllLettersCons([w[0]] + rest[0], rest[1..]);
        AllLettersCons(w[0], rest[0]);
      }
    }
  }

  /** A leading, trailing or doubled hyphen. */
  predicate HasMisplacedHyphen(w: string)
  {
    |w| > 0 && (w[0] == '-' || w[|w| - 1] == '-' || exists i :: 0 <= i < |w| - 1 && w[i] == '-' && w[i + 1] == '-')
  }

  /** A leading, trailing or doubled hyphen leaves an empty piece. */
  lemma MisplacedHyphenGivesEmptyPart(w: string)
    requires HasMisplacedHyphen(w)
    ensures [] in Split(w)
  {
    assert Split([]) == [[]];
    if w[0] == '-' {
      assert w == [] + "-" + w[1..];
      SplitAppend([], w[1..]);
      assert Split(w)[0] == [];
    } else if w[|w| - 1] == '-' {
      var a := w[..|w| - 1];
      assert w == a + "-" + [];
      SplitAppend(a, []);
      assert Split(w)[|Split(a)|] == [];
    } else {
      var i :| 0 <= i < |w| - 1 && w[i] == '-' && w[i + 1] == '-';
      var a, b := w[..i], w[i + 2..];
      var tail := [] + "-" + b;
      assert w == a + "-" + tail;
      SplitAppend(a, tail);
      SplitAppend([], b);
      assert Split(tail)[0] == [];
      assert Split(w)[|Split(a)|] == [];
    }
  }

  // ---------------------------------------------------------------------------
  // What a valid word is

  /** A run of at least two English letters. */
  predicate IsRun(p: string)
  {
    |p| >= 2 && AllLetters(p)
  }

  predicate AllRuns(parts: seq<string>)
  {
    forall k :: 0 <= k < |parts| ==> IsRun(parts[k])
  }

  /** One or more runs of at least two English letters joined by single hyphens. */
  ghost predicate IsHyphenatedWord(w: string)
  {
    exists parts :: |parts| >= 1 && AllRuns(parts) && Join(parts) == w
  }

  /** The regex check and the piece check together accept exactly the words whose pieces are all runs. */
  lemma RegexAndPartsIffRuns(w: string)
    ensures MatchesBaseRegex(w) && !('-' in w && HasShortPart(w)) <==> AllRuns(Split(w))
  {
    var parts := Split(w);
    SplitLetters(w);
    SplitJoin(w);
    if MatchesBaseRegex(w) && !('-' in w && HasShortPart(w)) {
      if '-' !in w {
        SplitWithoutHyphen(w);
      }
    }
    if AllRuns(parts) {
      assert w[..|parts[0]|] == parts[0] by {
        if |parts| > 1 {
          assert w == parts[0] + ("-" + Join(parts[1..]));
        }
      }
      assert w[0] == parts[0][0];
      assert !AllHyphens(w);
    }
  }

  /** The pieces of a word are all runs exactly when it is a hyphenated word. */
  lemma HyphenatedIffRuns(w: string)
    ensures IsHyphenatedWord(w) <==> AllRuns(Split(w))
  {
    if AllRuns(Split(w)) {
      SplitJoin(w);
    }
    if IsHyphenatedWord(w) {
      var parts :| |parts| >= 1 && AllRuns(parts) && Join(parts) == w;
      assert forall k :: 0 <= k < |parts| ==> '-' !in parts[k];
      JoinSplit(parts);
    }
  }

  // ---------------------------------------------------------------------------
  // The outcomes

  /** The chain ends in VALID exactly for a hyphenated word of at most the maximum length. */
  lemma ValidIffHyphenatedWord(w: string)
    ensures WordValidator(w).Validate() == Valid <==> |w| <= MaxWordLength && IsHyphenatedWord(w)
  {
    HyphenatedIffRuns(w);
  }

  /** VALID exactly when the stripped word is short enough and is runs of letters joined by single hyphens. */
  lemma ValidExactly(raw: string)
    ensures NewWordValidator(raw).Validate() == Valid
        <==> |Strip(raw)| <= MaxWordLength && IsHyphenatedWord(Strip(raw))
  {
    ValidIffHyphenatedWord(Strip(raw));
  }

  /** EMPTY exactly when the input is whitespace only. */
  lemma EmptyExactly(raw: string)
    ensures NewWordValidator(raw).Validate() == Empty <==> AllSpace(raw)
  {
    StripEmptyIffAllSpace(raw);
  }

  /** NOT_ENGLISH exactly when a non-empty stripped word within the limit fails the regex. */
  lemma NotEnglishExactly(raw: string)
    ensures NewWordValidator(raw).Validate() == NotEnglish
        <==> 0 < |Strip(raw)| <= MaxWordLength && !MatchesBaseRegex(Strip(raw))
  {
  }

  /** INVALID_PARTS exactly when the word passes the regex but some piece between hyphens is not a run of two or more letters. */
  lemma InvalidPartsExactly(raw: string)
    ensures NewWordValidator(raw).Validate() == InvalidParts
        <==> |Strip(raw)| <= MaxWordLength && MatchesBaseRegex(Strip(raw)) && !AllRuns(Split(Strip(raw)))
  {
    RegexAndPartsIffRuns(Strip(raw));
  }

  /** A leading, trailing or doubled hyphen in a word that passes the regex gives INVALID_PARTS. */
  lemma MisplacedHyphenIsInvalidParts(raw: string)
    requires |Strip(raw)| <= MaxWordLength
    requires MatchesBaseRegex(Strip(raw)) && HasMisplacedHyphen(Strip(raw))
    ensures NewWordValidator(raw).Validate() == InvalidParts
  {
    var w := Strip(raw);
    MisplacedHyphenGivesEmptyPart(w);
    var parts := Split(w);
    var k :| 0 <= k < |parts| && parts[k] == [];
    assert |parts[k]| < 2;
    assert HasShortPart(w);
    assert '-' in w by {
      if w[0] != '-' && w[|w| - 1] != '-' {
        var i :| 0 <= i < |w| - 1 && w[i] == '-' && w[i + 1] == '-';
        assert w[i] in w;
      }
    }
  }

  /** Whitespace around the input never changes the outcome. */
  lemma ValidateIgnoresSurroundingSpace(p: string, raw: string, q: string)
    requires AllSpace(p) && AllSpace(q)
    ensures NewWordValidator(p + raw + q).Validate() == NewWordValidator(raw).Validate()
  {
    StripIgnoresSurroundingSpace(p, raw, q);
  }

  /** `validate_word` answers with a message exactly when it returns nothing. */
  lemma ValidateWordRepliesOnRejection(raw: string)
    ensures ValidateWord(raw).None? <==> Message(NewWordValidator(raw).Validate()).Some?
  {
  }

  /** Length is checked before the characters: any stripped input over the limit is TOO_LONG. */
  lemma TooLongWhateverTheCharacters(raw: string)
    ensures NewWordValidator(raw).Validate() == TooLong <==> |Strip(raw)| > MaxWordLength
  {
  }

  /** A character outside `[a-zA-Z-]` anywhere in a short enough word gives NOT_ENGLISH. */
  lemma ForeignCharacterIsNotEnglish(raw: string, i: nat)
    requires |Strip(raw)| <= MaxWordLength
    requires i < |Strip(raw)| && !InBaseClass(Strip(raw)[i])
    ensures NewWordValidator(raw).Validate() == NotEnglish
  {
  }

  /** A single character, letter or not, gives NOT_ENGLISH: the regex wants at least two. */
  lemma SingleCharacterIsNotEnglish(c: char)
    requires !IsSpace(c)
    ensures NewWordValidator([c]).Validate() == NotEnglish
  {
    StripUnique([], [c], []);
    assert [] + [c] + [] == [c];
  }

  /** Hyphens alone are refused by the regex's lookahead, before the piece check could see them. */
  lemma HyphensOnlyIsNotEnglish(raw: string)
    requires 0 < |Strip(raw)| <= MaxWordLength && AllHyphens(Strip(raw))
    ensures NewWordValidator(raw).Validate() == NotEnglish
  {
  }

  lemma HyphenJoinShape(a: string, b: string)
    requires a != [] && b != [] && AllLetters(a) && AllLetters(b)
    ensures var w := a + "-" + b;
            IsTrimmed(w) && AllInBaseClass(w) && !AllHyphens(w) && Split(w) == [a, b]
  {
    var w := a + "-" + b;
    assert w[0] == a[0] && w[|w| - 1] == b[|b| - 1];
    forall j | 0 <= j < |w| ensures InBaseClass(w[j]) {
      if j < |a| { assert w[j] == a[j]; } else if j > |a| { assert w[j] == b[j - |a| - 1]; }
    }
    SplitAppend(a, b);
    SplitWithoutHyphen(a);
    SplitWithoutHyphen(b);
  }

  /** Two letter runs joined by one hyphen, one of them a single letter, pass the regex and give INVALID_PARTS. */
  lemma ShortPieceIsInvalidParts(a: string, b: string)
    requires a != [] && b != [] && AllLetters(a) && AllLetters(b)
    requires |a| < 2 || |b| < 2
    requires |a| + 1 + |b| <= MaxWordLength
    ensures NewWordValidator(a + "-" + b).Validate() == InvalidParts
  {
    var w := a + "-" + b;
    HyphenJoinShape(a, b);
    StripTrimmed(w);
    assert w[|a|] == '-';
    assert |Split(w)[0]| < 2 || |Split(w)[1]| < 2;
  }

  /** A run of letters alone, of two to seventy characters, is VALID. */
  lemma SingleRunIsValid(raw: string)
    requires |Strip(raw)| <= MaxWordLength && IsRun(Strip(raw))
    ensures NewWordValidator(raw).Validate() == Valid
  {
    var w := Strip(raw);
    assert Join([w]) == w;
    ValidExactly(raw);
  }

  /** Two runs of letters joined by one hyphen, seventy characters at most, are VALID. */
  lemma TwoRunsAreValid(a: string, b: string)
    requires IsRun(a) && IsRun(b) && |a| + 1 + |b| <= MaxWordLength
    ensures NewWordValidator(a + "-" + b).Validate() == Valid
  {
    var w := a + "-" + b;
    HyphenJoinShape(a, b);
    StripTrimmed(w);
    RegexAndPartsIffRuns(w);
  }

  // ---------------------------------------------------------------------------
  // The check order on concrete inputs

  /** A leading hyphen passes the regex and is caught by the piece check. */
  lemma LeadingHyphenExample()
    ensures NewWordValidator("-ab").Validate() == InvalidParts
  {
    MisplacedHyphenIsInvalidParts("-ab");
  }

  /** A one-letter piece is refused by the piece check. */
  lemma OneLetterPieceExample()
    ensures NewWordValidator("a-b").Validate() == InvalidParts
  {
    assert "a-b" == "a" + "-" + "b";
    ShortPieceIsInvalidParts("a", "b");
  }

  /** Hyphens alone never reach the piece check. */
  lemma HyphensOnlyExample()
    ensures NewWordValidator("--").Validate() == NotEnglish
  {
    StripTrimmed("--");
  }

  /** A single letter fails the regex's length bound. */
  lemma SingleLetterExample()
    ensures NewWordValidator("a").Validate() == NotEnglish
  {
    SingleCharacterIsNotEnglish('a');
  }

  /** A hyphenated word is accepted. */
  lemma HyphenatedExample()
    ensures NewWordValidator("well-being").Validate() == Valid
  {
    assert "well-being" == "well" + "-" + "being";
    TwoRunsAreValid("well", "being");
  }

  /** Surrounding whitespace is stripped and the case is kept. */
  lemma ValidateWordExample()
    ensures ValidateWord(" Hello\n") == Some("Hello")
  {
    var raw, w := " Hello\n", "Hello";
    assert raw == " " + w + "\n";
    StripUnique(" ", w, "\n");
    assert IsRun(w);
    SingleRunIsValid(raw);
  }
}
