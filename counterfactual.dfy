/**
 * custom/scripts/counterfactual_generator.py: the counterfactual engine.
 *
 * The input report is cleaned and split into words; for every word longer
 * than three characters the lexical database (WordNet) proposes synonyms or
 * antonyms, each single-word candidate is substituted into the input with
 * Python's `str.replace`, and the language model's output for the new input
 * is recorded. The records of both runs are then counted against the
 * original output and written out as a text report.
 *
 * WordNet and the language model are parameters: `WordNet` gives the
 * synsets of a word, `llm` the generated text for an input.
 */
module Counterfactual {
  import opened PyStrings
  import opened Basic

  /** `SYNONYM` and `ANTONYM`; `mode` is a plain `int` in the source. */
  const Synonym: int := 0
  const Antonym: int := 1

  predicate ValidMode(mode: int) { mode == Synonym || mode == Antonym }

  /** Words longer than this are searched; the source writes the literal `3`. */
  const MaxSkippedLength: nat := 3

  predicate Eligible(word: string) { |word| > MaxSkippedLength }

  // =====================================================================
  // Tokenizer (`__get_clean_string`, `__get_words`)

  predicate IsLetter(c: char) { 'A' <= c <= 'Z' || 'a' <= c <= 'z' }

  /** The characters `[A-Za-z ]` that survive cleaning. */
  predicate IsKept(c: char) { IsLetter(c) || c == ' ' }

  /** `re.sub(r'[^A-Za-z ]', '', s)`: every other character is dropped, the rest keep their order. */
  function CleanString(s: string): (r: string)
    ensures |r| <= |s|
    ensures forall i :: 0 <= i < |r| ==> IsKept(r[i])
    decreases |s|
  {
    if s == [] then []
    else (if IsKept(s[0]) then [s[0]] else []) + CleanString(s[1..])
  }

  /** Cleaning distributes over concatenation. */
  lemma {:induction false} CleanConcat(a: string, b: string)
    ensures CleanString(a + b) == CleanString(a) + CleanString(b)
    decreases |a|
  {
    if a != [] {
      assert (a + b)[0] == a[0] && (a + b)[1..] == a[1..] + b;
      CleanConcat(a[1..], b);
      var head := if IsKept(a[0]) then [a[0]] else [];
      assert CleanString(a + b) == head + CleanString(a[1..] + b);
      assert CleanString(a) == head + CleanString(a[1..]);
    } else {
      assert a + b == b;
    }
  }

  /** A string is left unchanged by cleaning exactly when it holds only letters and spaces. */
  lemma {:induction false} CleanUnchangedIff(s: string)
    ensures CleanString(s) == s <==> forall i :: 0 <= i < |s| ==> IsKept(s[i])
    decreases |s|
  {
    if s != [] {
      CleanUnchangedIff(s[1..]);
      if !IsKept(s[0]) {
        assert |CleanString(s)| < |s| by {
          assert CleanString(s) == CleanString(s[1..]);
        }
      }
    }
  }

  /** Cleaning is idempotent. */
  lemma CleanIdempotent(s: string)
    ensures CleanString(CleanString(s)) == CleanString(s)
  {
    CleanUnchangedIff(CleanString(s));
  }

  /** `__get_words(s)`: `__get_clean_string(s).split(" ")`. */
  function Words(s: string): seq<string> {
    Split(CleanString(s), ' ')
  }

  /**
   * The tokens: one more than the spaces of the cleaned string (so at least
   * one, possibly empty), each made of letters only, and joined with single
   * spaces they give the cleaned string back.
   */
  lemma TokenizerShape(s: string)
    ensures |Words(s)| == Count(CleanString(s), ' ') + 1
    ensures forall i :: 0 <= i < |Words(s)| ==> ' ' !in Words(s)[i]
    ensures forall i, j :: 0 <= i < |Words(s)| && 0 <= j < |Words(s)[i]| ==> IsLetter(Words(s)[i][j])
    ensures Join(Words(s), ' ') == CleanString(s)
  {
    var clean := CleanString(s);
    SplitCount(clean, ' ');
    SplitPieces(clean, ' ');
    JoinSplit(clean, ' ');
    forall i, j | 0 <= i < |Words(s)| && 0 <= j < |Words(s)[i]| ensures IsLetter(Words(s)[i][j]) {
      var c := Words(s)[i][j];
      assert c in Words(s)[i];
      assert c in clean;
    }
  }

  // =====================================================================
  // Lexical lookups (`__get_synonyms`, `__get_antonyms`)

  /** A WordNet lemma: its name and the names of its antonym lemmas. */
  datatype Lexeme = Lexeme(name: string, antonyms: seq<string>)

  /** A synset is the list of its lemmas. */
  type Synset = seq<Lexeme>

  /** `wordnet.synsets`: the synsets a word belongs to. */
  type WordNet = string -> seq<Synset>

  /** `name.replace("_", " ")`. */
  function Spaced(name: string): string {
    ReplaceAll(name, "_", " ")
  }

  /** The synonyms contributed by a list of lemmas: their spaced names, except the word itself (ignoring case). */
  function LemmaSynonyms(lemmas: seq<Lexeme>, word: string): set<string>
    decreases |lemmas|
  {
    if lemmas == [] then {}
    else
      var c := Spaced(lemmas[|lemmas| - 1].name);
      LemmaSynonyms(lemmas[..|lemmas| - 1], word) + (if Lower(c) != Lower(word) then {c} else {})
  }

  /** The synonym set that `__get_synonyms` collects over all synsets. */
  function SynonymSet(synsets: seq<Synset>, word: string): set<string>
    decreases |synsets|
  {
    if synsets == [] then {}
    else SynonymSet(synsets[..|synsets| - 1], word) + LemmaSynonyms(synsets[|synsets| - 1], word)
  }

  /** The spaced names of a list of antonym lemma names. */
  function SpacedNames(names: seq<string>): set<string>
    decreases |names|
  {
    if names == [] then {}
    else SpacedNames(names[..|names| - 1]) + {Spaced(names[|names| - 1])}
  }

  /** The antonyms contributed by a list of lemmas. */
  function LemmaAntonyms(lemmas: seq<Lexeme>): set<string>
    decreases |lemmas|
  {
    if lemmas == [] then {}
    else LemmaAntonyms(lemmas[..|lemmas| - 1]) + SpacedNames(lemmas[|lemmas| - 1].antonyms)
  }

  /** The antonym set that `__get_antonyms` collects over all synsets. */
  function AntonymSet(synsets: seq<Synset>): set<string>
    decreases |synsets|
  {
    if synsets == [] then {}
    else AntonymSet(synsets[..|synsets| - 1]) + LemmaAntonyms(synsets[|synsets| - 1])
  }

  /**
   * Membership in the synonym set, independent of the order of the loops: a
   * candidate is the spaced name of some lemma of some synset, and differs
   * from the word when both are lower-cased.
   */
  lemma {:induction false} SynonymSetMembers(synsets: seq<Synset>, word: string, c: string)
    ensures c in SynonymSet(synsets, word) <==>
      Lower(c) != Lower(word) &&
      exists i, j :: 0 <= i < |synsets| && 0 <= j < |synsets[i]| && c == Spaced(synsets[i][j].name)
    decreases |synsets|
  {
    if synsets != [] {
      var n := |synsets|;
      SynonymSetMembers(synsets[..n - 1], word, c);
      LemmaSynonymsMembers(synsets[n - 1], word, c);
      if c in SynonymSet(synsets, word) {
        if c in SynonymSet(synsets[..n - 1], word) {
          var i, j :| 0 <= i < n - 1 && 0 <= j < |synsets[..n - 1][i]| && c == Spaced(synsets[..n - 1][i][j].name);
          assert synsets[i] == synsets[..n - 1][i];
        } else {
          var j :| 0 <= j < |synsets[n - 1]| && c == Spaced(synsets[n - 1][j].name);
        }
      } else if Lower(c) != Lower(word) {
        forall i, j | 0 <= i < n && 0 <= j < |synsets[i]| ensures c != Spaced(synsets[i][j].name) {
          if i < n - 1 {
            assert synsets[i] == synsets[..n - 1][i];
          }
        }
      }
    }
  }

  lemma {:induction false} LemmaSynonymsMembers(lemmas: seq<Lexeme>, word: string, c: string)
    ensures c in LemmaSynonyms(lemmas, word) <==>
      Lower(c) != Lower(word) && exists j :: 0 <= j < |lemmas| && c == Spaced(lemmas[j].name)
    decreases |lemmas|
  {
    if lemmas != [] {
      var n := |lemmas|;
      LemmaSynonymsMembers(lemmas[..n - 1], word, c);
      if c in LemmaSynonyms(lemmas[..n - 1], word) {
        var j :| 0 <= j < n - 1 && c == Spaced(lemmas[..n - 1][j].name);
        assert lemmas[j] == lemmas[..n - 1][j];
      }
      if exists j :: 0 <= j < n && c == Spaced(lemmas[j].name) {
        var j :| 0 <= j < n && c == Spaced(lemmas[j].name);
        if j < n - 1 {
          assert lemmas[..n - 1][j] == lemmas[j];
        }
      }
    }
  }

  /**
   * Membership in the antonym set: the spaced name of some antonym of some
   * lemma of some synset. There is no filter against the word itself.
   */
  lemma {:induction false} AntonymSetMembers(synsets: seq<Synset>, c: string)
    ensures c in AntonymSet(synsets) <==>
      exists i, j, k :: 0 <= i < |synsets| && 0 <= j < |synsets[i]| && 0 <= k < |synsets[i][j].antonyms| &&
        c == Spaced(synsets[i][j].antonyms[k])
    decreases |synsets|
  {
    if synsets != [] {
      var n := |synsets|;
      AntonymSetMembers(synsets[..n - 1], c);
      LemmaAntonymsMembers(synsets[n - 1], c);
      if c in AntonymSet(synsets[..n - 1]) {
        var i, j, k :| 0 <= i < n - 1 && 0 <= j < |synsets[..n - 1][i]| && 0 <= k < |synsets[..n - 1][i][j].antonyms| &&
          c == Spaced(synsets[..n - 1][i][j].antonyms[k]);
        assert synsets[i] == synsets[..n - 1][i];
      }
      if exists i, j, k :: 0 <= i < n && 0 <= j < |synsets[i]| && 0 <= k < |synsets[i][j].antonyms| &&
          c == Spaced(synsets[i][j].antonyms[k]) {
        var i, j, k :| 0 <= i < n && 0 <= j < |synsets[i]| && 0 <= k < |synsets[i][j].antonyms| &&
          c == Spaced(synsets[i][j].antonyms[k]);
        if i < n - 1 {
          assert synsets[..n - 1][i] == synsets[i];
        }
      }
    }
  }

  lemma {:induction false} LemmaAntonymsMembers(lemmas: seq<Lexeme>, c: string)
    ensures c in LemmaAntonyms(lemmas) <==>
      exists j, k :: 0 <= j < |lemmas| && 0 <= k < |lemmas[j].antonyms| && c == Spaced(lemmas[j].antonyms[k])
    decreases |lemmas|
  {
    if lemmas != [] {
      var n := |lemmas|;
      LemmaAntonymsMembers(lemmas[..n - 1], c);
      SpacedNamesMembers(lemmas[n - 1].antonyms, c);
      if c in LemmaAntonyms(lemmas[..n - 1]) {
        var j, k :| 0 <= j < n - 1 && 0 <= k < |lemmas[..n - 1][j].antonyms| && c == Spaced(lemmas[..n - 1][j].antonyms[k]);
        assert lemmas[j] == lemmas[..n - 1][j];
      }
      if exists j, k :: 0 <= j < n && 0 <= k < |lemmas[j].antonyms| && c == Spaced(lemmas[j].antonyms[k]) {
        var j, k :| 0 <= j < n && 0 <= k < |lemmas[j].antonyms| && c == Spaced(lemmas[j].antonyms[k]);
        if j < n - 1 {
          assert lemmas[..n - 1][j] == lemmas[j];
        }
      }
    }
  }

  lemma {:induction false} SpacedNamesMembers(names: seq<string>, c: string)
    ensures c in SpacedNames(names) <==> exists k :: 0 <= k < |names| && c == Spaced(names[k])
    decreases |names|
  {
    if names != [] {
      var n := |names|;
      SpacedNamesMembers(names[..n - 1], c);
      if c in SpacedNames(names[..n - 1]) {
        var k :| 0 <= k < n - 1 && c == Spaced(names[..n - 1][k]);
        assert names[k] == names[..n - 1][k];
      }
      if exists k :: 0 <= k < n && c == Spaced(names[k]) {
        var k :| 0 <= k < n && c == Spaced(names[k]);
        if k < n - 1 {
          assert names[..n - 1][k] == names[k];
        }
      }
    }
  }

  /** No candidate holds an underscore, and no synonym is the word itself up to case. */
  lemma CandidatesAreSpacedAndNotSelf(synsets: seq<Synset>, word: string, c: string)
    ensures c in SynonymSet(synsets, word) ==> Lower(c) != Lower(word) && '_' !in c
    ensures c in AntonymSet(synsets) ==> '_' !in c
  {
    SynonymSetMembers(synsets, word, c);
    AntonymSetMembers(synsets, c);
    if c in SynonymSet(synsets, word) {
      var i, j :| 0 <= i < |synsets| && 0 <= j < |synsets[i]| && c == Spaced(synsets[i][j].name);
      ReplaceCharRemoves(synsets[i][j].name, '_', " ");
    }
    if c in AntonymSet(synsets) {
      var i, j, k :| 0 <= i < |synsets| && 0 <= j < |synsets[i]| && 0 <= k < |synsets[i][j].antonyms| &&
        c == Spaced(synsets[i][j].antonyms[k]);
      ReplaceCharRemoves(synsets[i][j].antonyms[k], '_', " ");
    }
  }

  /**
   * `__get_synonyms(word)`: the set built by the two nested loops over
   * synsets and lemmas. `asked` lists the words passed to WordNet.
   */
  method GetSynonyms(word: string, wordnet: WordNet) returns (synonyms: set<string>, asked: seq<string>)
    ensures synonyms == SynonymSet(wordnet(word), word)
    ensures asked == [word]
  {
    var synsets := wordnet(word);
    asked := [word];
    synonyms := {};
    for i := 0 to |synsets|
      invariant synonyms == SynonymSet(synsets[..i], word)
    {
      var lemmas := synsets[i];
      for j := 0 to |lemmas|
        invariant synonyms == SynonymSet(synsets[..i], word) + LemmaSynonyms(lemmas[..j], word)
      {
        var synonym := Spaced(lemmas[j].name);
        if Lower(synonym) != Lower(word) {
          synonyms := synonyms + {synonym};
        }
        assert lemmas[..j + 1][..j] == lemmas[..j];
      }
      assert lemmas[..|lemmas|] == lemmas;
      assert synsets[..i + 1][..i] == synsets[..i];
    }
    assert synsets[..|synsets|] == synsets;
  }

  /**
   * `__get_antonyms(word)`: the set built by the three nested loops over
   * synsets, lemmas and antonyms. `asked` lists the words passed to WordNet.
   */
  method GetAntonyms(word: string, wordnet: WordNet) returns (antonyms: set<string>, asked: seq<string>)
    ensures antonyms == AntonymSet(wordnet(word))
    ensures asked == [word]
  {
    var synsets := wordnet(word);
    asked := [word];
    antonyms := {};
    for i := 0 to |synsets|
      invariant antonyms == AntonymSet(synsets[..i])
    {
      var lemmas := synsets[i];
      for j := 0 to |lemmas|
        invariant antonyms == AntonymSet(synsets[..i]) + LemmaAntonyms(lemmas[..j])
      {
        var names := lemmas[j].antonyms;
        ghost var before := antonyms;
        if |names| > 0 {
          for k := 0 to |names|
            invariant antonyms == before + SpacedNames(names[..k])
          {
            antonyms := antonyms + {Spaced(names[k])};
            assert names[..k + 1][..k] == names[..k];
          }
        }
        assert names[..|names|] == names;
        assert lemmas[..j + 1][..j] == lemmas[..j];
      }
      assert lemmas[..|lemmas|] == lemmas;
      assert synsets[..i + 1][..i] == synsets[..i];
    }
    assert synsets[..|synsets|] == synsets;
  }

  /** The candidates the active mode proposes for a word. */
  function Candidates(wordnet: WordNet, mode: int, word: string): set<string> {
    if mode == Synonym then SynonymSet(wordnet(word), word) else AntonymSet(wordnet(word))
  }

  // =====================================================================
  // Search loop (`__get_counterfactual_outputs`)

  /** The text-to-text model: the output it generates for an input. */
  type Model = string -> string

  /** One `(new_word, llm.get_output())` pair. */
  datatype Record = Record(substitute: string, output: string)

  /** The candidates that are sent to the model: those without a space. */
  function SingleWords(candidates: set<string>): set<string> {
    set c | c in candidates && ' ' !in c
  }

  /** The substitutes of a list of records. */
  function Substitutes(records: seq<Record>): set<string> {
    set i | 0 <= i < |records| :: records[i].substitute
  }

  predicate DistinctSubstitutes(records: seq<Record>) {
    forall i, j :: 0 <= i < j < |records| ==> records[i].substitute != records[j].substitute
  }

  /**
   * The records one occurrence of `word` leaves behind: exactly one record
   * per single-word candidate, in some order, each holding the model's output
   * for the input with every occurrence of `word` replaced by the candidate.
   */
  ghost predicate CounterfactualsFor(records: seq<Record>, input: string, word: string, candidates: set<string>, llm: Model)
    requires |word| > 0
  {
    && Substitutes(records) == SingleWords(candidates)
    && DistinctSubstitutes(records)
    && OutputsFrom(records, input, word, llm)
  }

  /** Each record holds the model's output for the input with `word` replaced (everywhere) by its substitute. */
  ghost predicate OutputsFrom(records: seq<Record>, input: string, word: string, llm: Model)
    requires |word| > 0
  {
    forall i :: 0 <= i < |records| ==> records[i].output == llm(ReplaceAll(input, word, records[i].substitute))
  }

  lemma SingleWordsAdd(visited: set<string>, x: string)
    ensures SingleWords(visited + {x}) == SingleWords(visited) + (if ' ' !in x then {x} else {})
  {
  }

  lemma {:induction false} DistinctSubstitutesCount(records: seq<Record>)
    requires DistinctSubstitutes(records)
    ensures |Substitutes(records)| == |records|
    decreases |records|
  {
    if records != [] {
      var n := |records|;
      var init := records[..n - 1];
      DistinctSubstitutesCount(init);
      assert Substitutes(records) == Substitutes(init) + {records[n - 1].substitute} by {
        forall x | x in Substitutes(records) ensures x in Substitutes(init) + {records[n - 1].substitute} {
          var i :| 0 <= i < n && records[i].substitute == x;
          if i < n - 1 {
            assert init[i] == records[i];
          }
        }
      }
      assert records[n - 1].substitute !in Substitutes(init);
    }
  }

  /**
   * A word's list holds as many records as it has single-word candidates, so
   * never more than it has candidates, and no candidate with a space is among them.
   */
  lemma CounterfactualCount(records: seq<Record>, input: string, word: string, candidates: set<string>, llm: Model)
    requires |word| > 0 && CounterfactualsFor(records, input, word, candidates, llm)
    ensures |records| == |SingleWords(candidates)| <= |candidates|
    ensures forall i :: 0 <= i < |records| ==> records[i].substitute in candidates && ' ' !in records[i].substitute
  {
    DistinctSubstitutesCount(records);
    SubsetCard(SingleWords(candidates), candidates);
    forall i | 0 <= i < |records|
      ensures records[i].substitute in candidates && ' ' !in records[i].substitute
    {
      assert records[i].substitute in Substitutes(records);
    }
  }

  lemma {:induction false} SubsetCard<T>(a: set<T>, b: set<T>)
    requires a <= b
    ensures |a| <= |b|
    decreases |b|
  {
    if a != {} {
      var x :| x in a;
      SubsetCard(a - {x}, b - {x});
    }
  }

  lemma SubstitutesAppend(records: seq<Record>, r: Record)
    ensures Substitutes(records + [r]) == Substitutes(records) + {r.substitute}
  {
    var all := records + [r];
    forall x | x in Substitutes(all) ensures x in Substitutes(records) + {r.substitute} {
      var i :| 0 <= i < |all| && all[i].substitute == x;
      if i < |records| {
        assert all[i] == records[i];
      }
    }
    forall x | x in Substitutes(records) ensures x in Substitutes(all) {
      var i :| 0 <= i < |records| && records[i].substitute == x;
      assert all[i] == records[i];
    }
    assert all[|records|] == r;
  }

  /**
   * The inner `for new_word in new_words` loop for one word: the candidates
   * are visited in an unspecified order (a `set` turned into a `list`), and
   * each single-word candidate is substituted and sent to the model.
   * `calls` lists `(word, substitute)` for each call of the model, in order.
   */
  method SubstituteCandidates(input: string, word: string, candidates: set<string>, llm: Model)
    returns (records: seq<Record>, calls: seq<(string, string)>)
    requires |word| > 0
    ensures CounterfactualsFor(records, input, word, candidates, llm)
    ensures calls == CallPairs(word, records)
  {
    records, calls := [], [];
    var remaining := candidates;
    ghost var visited: set<string> := {};
    while remaining != {}
      invariant visited == candidates - remaining && remaining <= candidates
      invariant CounterfactualsFor(records, input, word, visited, llm)
      invariant calls == CallPairs(word, records)
      decreases |remaining|
    {
      var newWord :| newWord in remaining;
      ghost var before := records;
      remaining := remaining - {newWord};
      if ' ' !in newWord {
        var newInput := ReplaceAll(input, word, newWord);
        records := records + [Record(newWord, llm(newInput))];
        calls := calls + [(word, newWord)];
      }
      AddCandidate(before, visited, newWord, input, word, llm);
      visited := visited + {newWord};
    }
  }

  /** Visiting one more candidate keeps the records exactly those of the visited candidates. */
  lemma AddCandidate(records: seq<Record>, visited: set<string>, c: string, input: string, word: string, llm: Model)
    requires |word| > 0 && c !in visited && CounterfactualsFor(records, input, word, visited, llm)
    ensures CounterfactualsFor(records + (if ' ' !in c then [Record(c, llm(ReplaceAll(input, word, c)))] else []),
                               input, word, visited + {c}, llm)
  {
    SingleWordsAdd(visited, c);
    if ' ' !in c {
      var r := Record(c, llm(ReplaceAll(input, word, c)));
      SubstitutesAppend(records, r);
      assert c !in Substitutes(records);
      var all := records + [r];
      assert forall i :: 0 <= i < |records| ==> all[i] == records[i];
    } else {
      assert records + [] == records;
    }
  }

  /** `list(dict)` after the words were inserted in this order: each word once, at its first insertion. */
  function FirstOccurrences(words: seq<string>): (keys: seq<string>)
    decreases |words|
  {
    if words == [] then []
    else
      var keys := FirstOccurrences(words[..|words| - 1]);
      if words[|words| - 1] in keys then keys else keys + [words[|words| - 1]]
  }

  /** The keys are exactly the words, each once. */
  lemma {:induction false} FirstOccurrencesShape(words: seq<string>)
    ensures forall w :: w in FirstOccurrences(words) <==> w in words
    ensures forall i, j :: 0 <= i < j < |FirstOccurrences(words)| ==> FirstOccurrences(words)[i] != FirstOccurrences(words)[j]
    decreases |words|
  {
    if words != [] {
      var init := words[..|words| - 1];
      FirstOccurrencesShape(init);
      assert words == init + [words[|words| - 1]];
    }
  }

  /** The words a lookup is made for, one per eligible token, in order. */
  function EligibleWords(words: seq<string>): (r: seq<string>)
    ensures forall i :: 0 <= i < |r| ==> Eligible(r[i])
    decreases |words|
  {
    if words == [] then []
    else EligibleWords(words[..|words| - 1]) + (if Eligible(words[|words| - 1]) then [words[|words| - 1]] else [])
  }

  /** `int(k / n * 100)` for `k` of `n` words done, on exact arithmetic. */
  function Percentage(k: nat, n: nat): nat
    requires n > 0
  {
    (k * 100) / n
  }

  /** The percentages reported after each of the `n` words. */
  function Progress(n: nat): seq<nat>
    requires n > 0
  {
    seq(n, j requires 0 <= j => Percentage(j + 1, n))
  }

  /** Everything one run of `__get_counterfactual_outputs` produces and does. */
  datatype Search = Search(
    keys: seq<string>,                       // the dict's keys in insertion order
    entries: map<string, seq<Record>>,       // the dict
    progress: seq<nat>,                      // the percentage computed after each word
    lookups: seq<string>,                    // the words the lexical database was asked about
    calls: seq<(string, string)>)            // (word, substitute) for each model call

  /** Every key of the insertion order is a key of the dict. */
  predicate KeysIn(keys: seq<string>, entries: map<string, seq<Record>>) {
    forall i :: 0 <= i < |keys| ==> keys[i] in entries
  }

  /** What a successful run promises about its dict, its progress and the calls it made. */
  ghost predicate SearchSpec(input: string, llm: Model, wordnet: WordNet, mode: int, s: Search)
  {
    var words := Words(input);
    && |words| > 0
    && s.keys == FirstOccurrences(words)
    && (forall w :: w in s.entries <==> w in words)
    && KeysIn(s.keys, s.entries)
    && EntriesSpec(s.entries, input, llm, wordnet, mode)
    && s.progress == Progress(|words|)
    && s.lookups == EligibleWords(words)
    && CallsSpec(s.calls, wordnet, mode)
  }

  /** Short tokens map to `[]`, eligible ones to the counterfactuals of their candidates. */
  ghost predicate EntriesSpec(entries: map<string, seq<Record>>, input: string, llm: Model, wordnet: WordNet, mode: int) {
    && (forall w :: w in entries && !Eligible(w) ==> entries[w] == [])
    && (forall w :: w in entries && Eligible(w) ==>
          CounterfactualsFor(entries[w], input, w, Candidates(wordnet, mode, w), llm))
  }

  /** The model is only called for an eligible token and one of its single-word candidates. */
  ghost predicate CallsSpec(calls: seq<(string, string)>, wordnet: WordNet, mode: int) {
    forall i :: 0 <= i < |calls| ==>
      && Eligible(calls[i].0)
      && calls[i].1 in Candidates(wordnet, mode, calls[i].0)
      && ' ' !in calls[i].1
  }

  /** The `(word, substitute)` pairs of the model calls that produced the records. */
  function CallPairs(word: string, records: seq<Record>): (r: seq<(string, string)>)
    ensures |r| == |records|
    ensures forall i :: 0 <= i < |r| ==> r[i] == (word, records[i].substitute)
  {
    seq(|records|, i requires 0 <= i < |records| => (word, records[i].substitute))
  }

  lemma CallsAppend(calls: seq<(string, string)>, word: string, records: seq<Record>, wordnet: WordNet, mode: int)
    requires CallsSpec(calls, wordnet, mode) && Eligible(word)
    requires forall i :: 0 <= i < |records| ==> records[i].substitute in Candidates(wordnet, mode, word) && ' ' !in records[i].substitute
    ensures CallsSpec(calls + CallPairs(word, records), wordnet, mode)
  {
    var all := calls + CallPairs(word, records);
    forall i | 0 <= i < |all|
      ensures Eligible(all[i].0) && all[i].1 in Candidates(wordnet, mode, all[i].0) && ' ' !in all[i].1
    {
      if i >= |calls| {
        assert all[i] == CallPairs(word, records)[i - |calls|];
      }
    }
  }

  /** Some token is long enough to be searched. */
  ghost predicate SomeEligible(words: seq<string>) {
    exists i :: 0 <= i < |words| && Eligible(words[i])
  }

  /**
   * The body of the loop for one token, after its key was reset: a short
   * token keeps `[]`; a long one has its candidates looked up and substituted,
   * and an unknown mode raises. `lookups` lists the words passed to
   * WordNet and `calls` the `(word, substitute)` of each model call.
   */
  method SearchWord(input: string, llm: Model, wordnet: WordNet, mode: int, word: string)
    returns (r: Result<seq<Record>, string>, lookups: seq<string>, calls: seq<(string, string)>)
    ensures r.Failure? <==> Eligible(word) && !ValidMode(mode)
    ensures r.Success? && !Eligible(word) ==> r.value == []
    ensures r.Success? && Eligible(word) ==> CounterfactualsFor(r.value, input, word, Candidates(wordnet, mode, word), llm)
    ensures lookups == if Eligible(word) && ValidMode(mode) then [word] else []
    ensures calls == if r.Success? then CallPairs(word, r.value) else []
  {
    lookups, calls := [], [];
    if |word| > 3 {
      var newWords: set<string>;
      if mode == Synonym {
        newWords, lookups := GetSynonyms(word, wordnet);
      } else if mode == Antonym {
        newWords, lookups := GetAntonyms(word, wordnet);
      } else {
        return Failure("Invalid mode. Use SYNONYM or ANTONYM."), lookups, calls;
      }
      var records;
      records, calls := SubstituteCandidates(input, word, newWords, llm);
      return Success(records), lookups, calls;
    }
    return Success([]), lookups, calls;
  }

  /** The state of `__get_counterfactual_outputs` after its first `k` tokens. */
  ghost predicate SearchedPrefix(input: string, llm: Model, wordnet: WordNet, mode: int, words: seq<string>, k: nat,
                                 s: Search)
    requires 0 < |words| && k <= |words|
  {
    && s.keys == FirstOccurrences(words[..k])
    && (forall w :: w in s.entries <==> w in words[..k])
    && EntriesSpec(s.entries, input, llm, wordnet, mode)
    && s.progress == Progress(|words|)[..k]
    && s.lookups == EligibleWords(words[..k])
    && CallsSpec(s.calls, wordnet, mode)
    && (!ValidMode(mode) ==> forall i :: 0 <= i < k ==> !Eligible(words[i]))
  }

  /** One pass of the loop body keeps `SearchedPrefix`. */
  lemma SearchStep(input: string, llm: Model, wordnet: WordNet, mode: int, words: seq<string>, k: nat,
                   s: Search, records: seq<Record>, s': Search)
    requires k < |words| && SearchedPrefix(input, llm, wordnet, mode, words, k, s)
    requires Eligible(words[k]) ==> ValidMode(mode) && CounterfactualsFor(records, input, words[k], Candidates(wordnet, mode, words[k]), llm)
    requires !Eligible(words[k]) ==> records == []
    requires s'.keys == if words[k] in s.entries then s.keys else s.keys + [words[k]]
    requires s'.entries == s.entries[words[k] := records]
    requires s'.progress == s.progress + [Percentage(k + 1, |words|)]
    requires s'.lookups == s.lookups + if Eligible(words[k]) then [words[k]] else []
    requires s'.calls == s.calls + if Eligible(words[k]) then CallPairs(words[k], records) else []
    ensures SearchedPrefix(input, llm, wordnet, mode, words, k + 1, s')
  {
    var word := words[k];
    StepKeys(words, k, s.keys, s.entries, s'.entries);
    StepEntries(input, llm, wordnet, mode, word, s.entries, records);
    StepProgress(|words|, k, s.progress);
    StepLookups(words, k, s.lookups);
    StepCalls(input, llm, wordnet, mode, word, s.calls, records);
  }

  lemma StepCalls(input: string, llm: Model, wordnet: WordNet, mode: int, word: string,
                  calls: seq<(string, string)>, records: seq<Record>)
    requires CallsSpec(calls, wordnet, mode)
    requires Eligible(word) ==> CounterfactualsFor(records, input, word, Candidates(wordnet, mode, word), llm)
    ensures CallsSpec(calls + if Eligible(word) then CallPairs(word, records) else [], wordnet, mode)
  {
    if Eligible(word) {
      CounterfactualCount(records, input, word, Candidates(wordnet, mode, word), llm);
      CallsAppend(calls, word, records, wordnet, mode);
    } else {
      assert calls + [] == calls;
    }
  }

  lemma StepKeys(words: seq<string>, k: nat, keys: seq<string>, entries: map<string, seq<Record>>,
                 entries': map<string, seq<Record>>)
    requires k < |words|
    requires keys == FirstOccurrences(words[..k]) && forall w :: w in entries <==> w in words[..k]
    requires entries'.Keys == entries.Keys + {words[k]}
    ensures (if words[k] in entries then keys else keys + [words[k]]) == FirstOccurrences(words[..k + 1])
    ensures forall w :: w in entries' <==> w in words[..k + 1]
  {
    assert words[..k + 1] == words[..k] + [words[k]];
    FirstOccurrencesShape(words[..k]);
  }

  lemma StepEntries(input: string, llm: Model, wordnet: WordNet, mode: int, word: string,
                    entries: map<string, seq<Record>>, records: seq<Record>)
    requires EntriesSpec(entries, input, llm, wordnet, mode)
    requires Eligible(word) ==> CounterfactualsFor(records, input, word, Candidates(wordnet, mode, word), llm)
    requires !Eligible(word) ==> records == []
    ensures EntriesSpec(entries[word := records], input, llm, wordnet, mode)
  {
  }

  lemma StepProgress(n: nat, k: nat, progress: seq<nat>)
    requires k < n && progress == Progress(n)[..k]
    ensures progress + [Percentage(k + 1, n)] == Progress(n)[..k + 1]
  {
  }

  lemma StepLookups(words: seq<string>, k: nat, lookups: seq<string>)
    requires k < |words| && lookups == EligibleWords(words[..k])
    ensures lookups + (if Eligible(words[k]) then [words[k]] else []) == EligibleWords(words[..k + 1])
  {
    assert words[..k + 1][..k] == words[..k];
  }

  /**
   * `__get_counterfactual_outputs(window, input, llm, mode)`. Each token
   * (re)sets its key to `[]`; a token longer than three characters has its
   * candidates looked up, and an unknown mode raises only at that point;
   * its single-word candidates are substituted and sent to the model; after
   * every token the progress percentage is reported.
   */
  method CounterfactualOutputs(input: string, llm: Model, wordnet: WordNet, mode: int)
    returns (r: Result<Search, string>)
    ensures r.Failure? <==> !ValidMode(mode) && SomeEligible(Words(input))
    ensures r.Success? ==> SearchSpec(input, llm, wordnet, mode, r.value)
  {
    var words := Words(input);
    var s := Search([], map[], [], [], []);
    for k := 0 to |words|
      invariant SearchedPrefix(input, llm, wordnet, mode, words, k, s)
    {
      var step := RecordWord(input, llm, wordnet, mode, words, k, s);
      if step.Failure? {
        assert Eligible(words[k]);
        return Failure(step.error);
      }
      s := step.value;
    }
    r := Success(s);
    SearchComplete(input, llm, wordnet, mode, r.value);
  }

  /**
   * One pass of the loop in `__get_counterfactual_outputs`: the word's entry
   * is reset to an empty list (a new word becomes the last key), then filled
   * by `SearchWord`, and the progress percentage after `k + 1` words is shown.
   */
  method RecordWord(input: string, llm: Model, wordnet: WordNet, mode: int, words: seq<string>, k: nat, s: Search)
    returns (r: Result<Search, string>)
    requires k < |words| && SearchedPrefix(input, llm, wordnet, mode, words, k, s)
    ensures r.Failure? <==> Eligible(words[k]) && !ValidMode(mode)
    ensures r.Success? ==> SearchedPrefix(input, llm, wordnet, mode, words, k + 1, r.value)
  {
    var word := words[k];
    var keys := s.keys;
    if word !in s.entries {
      keys := keys + [word];
    }
    var entries := s.entries[word := []];
    var found, wordLookups, wordCalls := SearchWord(input, llm, wordnet, mode, word);
    if found.Failure? {
      return Failure(found.error);
    }
    var records := found.value;
    entries := entries[word := records];
    var lookups := s.lookups + wordLookups;
    var calls := s.calls + wordCalls;
    if !Eligible(word) {
      assert records == [] && wordCalls == [];
    }
    var progress := s.progress + [Percentage(k + 1, |words|)];
    r := Success(Search(keys, entries, progress, lookups, calls));
    SearchStep(input, llm, wordnet, mode, words, k, s, records, r.value);
  }

  /** After the last token the loop state is what `SearchSpec` promises. */
  lemma SearchComplete(input: string, llm: Model, wordnet: WordNet, mode: int, s: Search)
    requires SearchedPrefix(input, llm, wordnet, mode, Words(input), |Words(input)|, s)
    ensures SearchSpec(input, llm, wordnet, mode, s)
    ensures !ValidMode(mode) ==> !SomeEligible(Words(input))
  {
    var words := Words(input);
    assert words[..|words|] == words;
    FirstOccurrencesShape(words);
  }

  // ---------------------------------------------------------------------
  // Progress

  lemma DivMonotone(a: nat, b: nat, n: nat)
    requires n > 0 && a <= b
    ensures a / n <= b / n
  {
    var qa, qb := a / n, b / n;
    if qa > qb {
      MulMonotone(qb + 1, qa, n);
    }
  }

  lemma MulMonotone(a: nat, b: nat, n: nat)
    requires a <= b
    ensures a * n <= b * n
  {
  }

  /**
   * The reported percentage never decreases, stays within 0..100, and is
   * exactly 100 after the last token (a tokenized input has at least one token).
   */
  lemma ProgressFacts(n: nat)
    requires n > 0
    ensures Progress(n)[n - 1] == 100
    ensures forall j :: 0 <= j < n ==> Progress(n)[j] <= 100
    ensures forall i, j :: 0 <= i <= j < n ==> Progress(n)[i] <= Progress(n)[j]
  {
    PercentageWhole(n);
    forall i, j | 0 <= i <= j < n ensures Progress(n)[i] <= Progress(n)[j] {
      assert Progress(n)[i] == Percentage(i + 1, n) && Progress(n)[j] == Percentage(j + 1, n);
      PercentageMonotone(i + 1, j + 1, n);
    }
    forall j | 0 <= j < n ensures Progress(n)[j] <= 100 {
      assert Progress(n)[j] == Percentage(j + 1, n);
      PercentageMonotone(j + 1, n, n);
    }
  }

  /** All `n` of `n` words done is 100 percent. */
  lemma PercentageWhole(n: nat)
    requires n > 0
    ensures Percentage(n, n) == 100
  {
    var d := (n * 100) / n;
    var r := (n * 100) % n;
    assert n * 100 == d * n + r && 0 <= r < n;
    assert (d + 1) * n == d * n + n;
    assert 101 * n == 100 * n + n;
    IntMul(d + 1, 100, n);
    IntMul(101, d, n);
  }

  lemma IntMul(a: int, b: int, n: int)
    ensures 0 <= n && a <= b ==> a * n <= b * n
  {
    if 0 <= n && a <= b {
      assert b * n == a * n + (b - a) * n;
    }
  }

  lemma PercentageMonotone(a: nat, b: nat, n: nat)
    requires 0 < n && a <= b
    ensures Percentage(a, n) <= Percentage(b, n)
  {
    MulMonotone(a, b, 100);
    DivMonotone(a * 100, b * 100, n);
  }


  // =====================================================================
  // Aggregation and report (`get_output`, lines 91-144)

  /** The two kinds of line the report writes for a dict. */
  datatype Line =
    | WordHeader(word: string)                       // a word whose list is non-empty
    | Replaced(substitute: string, output: string)   // a record whose output matches the original

  const HeaderLead: string := "\n\nOriginal Word: "
  const ReplacedLead: string := "\nReplaced with: \""
  const OutputLead: string := "\" \n└──>New Output: \""
  const Quote: string := "\""

  function RenderLine(line: Line): string {
    match line
    case WordHeader(w) => HeaderLead + w
    case Replaced(sub, out) => ReplacedLead + sub + OutputLead + out + Quote
  }

  function Render(lines: seq<Line>): string
    decreases |lines|
  {
    if lines == [] then "" else Render(lines[..|lines| - 1]) + RenderLine(lines[|lines| - 1])
  }

  lemma {:induction false} RenderConcat(a: seq<Line>, b: seq<Line>)
    ensures Render(a + b) == Render(a) + Render(b)
    decreases |b|
  {
    if b == [] {
      assert a + b == a;
    } else {
      var init, last := b[..|b| - 1], b[|b| - 1];
      RenderConcat(a, init);
      assert (a + b)[..|a + b| - 1] == a + init && (a + b)[|a + b| - 1] == last;
      assert Render(a + b) == Render(a + init) + RenderLine(last);
      assert Render(b) == Render(init) + RenderLine(last);
      StringAssoc(Render(a), Render(init), RenderLine(last));
    }
  }

  lemma StringAssoc(x: string, y: string, z: string)
    ensures (x + y) + z == x + (y + z)
  {
  }

  /** The `Replaced with` lines for one word's records: only the records whose output equals the original. */
  function RecordLines(records: seq<Record>, output: string): seq<Line>
    decreases |records|
  {
    if records == [] then []
    else
      var last := records[|records| - 1];
      RecordLines(records[..|records| - 1], output) + (if last.output == output then [Replaced(last.substitute, last.output)] else [])
  }

  /** The lines written for a whole dict, key by key in insertion order. */
  function SectionLines(keys: seq<string>, entries: map<string, seq<Record>>, output: string): seq<Line>
    requires KeysIn(keys, entries)
    decreases |keys|
  {
    if keys == [] then []
    else
      var key := keys[|keys| - 1];
      SectionLines(keys[..|keys| - 1], entries, output) +
        (if entries[key] != [] then [WordHeader(key)] + RecordLines(entries[key], output) else [])
  }

  /** `num_of_items`' share from one dict: the number of records under its keys. */
  function RecordCount(keys: seq<string>, entries: map<string, seq<Record>>): nat
    requires KeysIn(keys, entries)
    decreases |keys|
  {
    if keys == [] then 0 else RecordCount(keys[..|keys| - 1], entries) + |entries[keys[|keys| - 1]]|
  }

  /** The records of a list whose output equals the original output. */
  function MatchCount(records: seq<Record>, output: string): nat
    decreases |records|
  {
    if records == [] then 0
    else MatchCount(records[..|records| - 1], output) + (if records[|records| - 1].output == output then 1 else 0)
  }

  /** `num_of_matching_predictions`' share from one dict. */
  function SectionMatches(keys: seq<string>, entries: map<string, seq<Record>>, output: string): nat
    requires KeysIn(keys, entries)
    decreases |keys|
  {
    if keys == [] then 0
    else SectionMatches(keys[..|keys| - 1], entries, output) + MatchCount(entries[keys[|keys| - 1]], output)
  }

  function ReplacedCount(lines: seq<Line>): nat
    decreases |lines|
  {
    if lines == [] then 0 else ReplacedCount(lines[..|lines| - 1]) + (if lines[|lines| - 1].Replaced? then 1 else 0)
  }

  lemma {:induction false} ReplacedCountConcat(a: seq<Line>, b: seq<Line>)
    ensures ReplacedCount(a + b) == ReplacedCount(a) + ReplacedCount(b)
    decreases |b|
  {
    if b == [] {
      assert a + b == a;
    } else {
      ReplacedCountConcat(a, b[..|b| - 1]);
      assert (a + b)[..|a + b| - 1] == a + b[..|b| - 1];
    }
  }

  /**
   * One word's lines: a `Replaced` line exactly for each matching record, in
   * order, so their number is the number of matches and each shows the original output.
   */
  lemma {:induction false} RecordLinesFacts(records: seq<Record>, output: string)
    ensures ReplacedCount(RecordLines(records, output)) == MatchCount(records, output) <= |records|
    ensures forall l :: l in RecordLines(records, output) ==> l.Replaced? && l.output == output && Record(l.substitute, l.output) in records
    decreases |records|
  {
    if records != [] {
      var init := records[..|records| - 1];
      var last := records[|records| - 1];
      RecordLinesFacts(init, output);
      var tail := if last.output == output then [Replaced(last.substitute, last.output)] else [];
      ReplacedCountConcat(RecordLines(init, output), tail);
      assert ReplacedCount(tail) == (if last.output == output then 1 else 0) by {
        if last.output == output {
          assert tail[..0] == [];
        }
      }
      forall l | l in RecordLines(records, output)
        ensures l.Replaced? && l.output == output && Record(l.substitute, l.output) in records
      {
        if l in RecordLines(init, output) {
          assert Record(l.substitute, l.output) in init;
        }
      }
    }
  }

  /** The lines for a dict hold one `Replaced` line per matching record. */
  lemma {:induction false} SectionReplacedCount(keys: seq<string>, entries: map<string, seq<Record>>, output: string)
    requires KeysIn(keys, entries)
    ensures ReplacedCount(SectionLines(keys, entries, output)) == SectionMatches(keys, entries, output)
    decreases |keys|
  {
    if keys != [] {
      var init := keys[..|keys| - 1];
      var key := keys[|keys| - 1];
      assert KeysIn(init, entries);
      SectionReplacedCount(init, entries, output);
      RecordLinesFacts(entries[key], output);
      var recordLines := RecordLines(entries[key], output);
      var chunk := if entries[key] != [] then [WordHeader(key)] + recordLines else [];
      ReplacedCountConcat(SectionLines(init, entries, output), chunk);
      if entries[key] != [] {
        ReplacedCountConcat([WordHeader(key)], recordLines);
        assert ReplacedCount([WordHeader(key)]) == 0 by {
          assert [WordHeader(key)][..0] == [];
        }
      }
    }
  }

  /** One key's chunk of lines holds a header for that key alone, and only when its list is non-empty. */
  lemma ChunkHeader(key: string, records: seq<Record>, output: string)
    ensures forall w :: WordHeader(w) in (if records != [] then [WordHeader(key)] + RecordLines(records, output) else []) <==>
      w == key && records != []
  {
    RecordLinesFacts(records, output);
  }

  /** A word gets a header exactly when it is a key with a non-empty list. */
  lemma {:induction false} SectionHeaders(keys: seq<string>, entries: map<string, seq<Record>>, output: string)
    requires KeysIn(keys, entries)
    ensures forall w :: WordHeader(w) in SectionLines(keys, entries, output) <==> w in keys && entries[w] != []
    decreases |keys|
  {
    if keys != [] {
      var init := keys[..|keys| - 1];
      var key := keys[|keys| - 1];
      assert KeysIn(init, entries);
      SectionHeaders(init, entries, output);
      ChunkHeader(key, entries[key], output);
      var chunk := if entries[key] != [] then [WordHeader(key)] + RecordLines(entries[key], output) else [];
      var lines := SectionLines(keys, entries, output);
      assert lines == SectionLines(init, entries, output) + chunk;
      forall w ensures WordHeader(w) in lines <==> w in keys && entries[w] != [] {
        assert WordHeader(w) in lines <==> WordHeader(w) in SectionLines(init, entries, output) || WordHeader(w) in chunk;
        assert w in keys <==> w in init || w == key;
      }
    }
  }

  /**
   * Only matching records are written out: every `Replaced` line shows the
   * original output and comes from a record under some key.
   */
  lemma {:induction false} SectionReplacedLines(keys: seq<string>, entries: map<string, seq<Record>>, output: string)
    requires KeysIn(keys, entries)
    ensures forall l :: l in SectionLines(keys, entries, output) && l.Replaced? ==>
      l.output == output && exists w :: w in keys && Record(l.substitute, l.output) in entries[w]
    decreases |keys|
  {
    if keys != [] {
      var init := keys[..|keys| - 1];
      var key := keys[|keys| - 1];
      assert KeysIn(init, entries);
      SectionReplacedLines(init, entries, output);
      RecordLinesFacts(entries[key], output);
      var recordLines := RecordLines(entries[key], output);
      forall l | l in SectionLines(keys, entries, output) && l.Replaced?
        ensures l.output == output && exists w :: w in keys && Record(l.substitute, l.output) in entries[w]
      {
        if l in SectionLines(init, entries, output) {
          var w :| w in init && Record(l.substitute, l.output) in entries[w];
          assert w in keys;
        } else {
          assert l in recordLines;
          assert key in keys;
        }
      }
    }
  }

  /** Matches never exceed records, and a dict has no records exactly when every list is empty. */
  lemma {:induction false} CountBounds(keys: seq<string>, entries: map<string, seq<Record>>, output: string)
    requires KeysIn(keys, entries)
    ensures SectionMatches(keys, entries, output) <= RecordCount(keys, entries)
    decreases |keys|
  {
    if keys != [] {
      var init := keys[..|keys| - 1];
      assert KeysIn(init, entries);
      CountBounds(init, entries, output);
      RecordLinesFacts(entries[keys[|keys| - 1]], output);
    }
  }

  /** No record was produced exactly when every key's list is empty. */
  lemma {:induction false} NoRecordsIff(keys: seq<string>, entries: map<string, seq<Record>>)
    requires KeysIn(keys, entries)
    ensures RecordCount(keys, entries) == 0 <==> forall i :: 0 <= i < |keys| ==> entries[keys[i]] == []
    decreases |keys|
  {
    if keys != [] {
      var init := keys[..|keys| - 1];
      assert KeysIn(init, entries);
      NoRecordsIff(init, entries);
      if RecordCount(keys, entries) == 0 {
        forall i | 0 <= i < |keys| ensures entries[keys[i]] == [] {
          if i < |keys| - 1 {
            assert keys[i] == init[i];
          }
        }
      }
      if forall i :: 0 <= i < |keys| ==> entries[keys[i]] == [] {
        forall i | 0 <= i < |init| ensures entries[init[i]] == [] {
          assert init[i] == keys[i];
        }
      }
    }
  }


  /**
   * The nested loops of `get_output` over one dict: a header for each key
   * with a non-empty list, each record counted, and each matching record
   * counted again and written out.
   */
  method AppendSection(content: string, keys: seq<string>, entries: map<string, seq<Record>>, output: string,
                       items: nat, matching: nat)
    returns (content': string, items': nat, matching': nat)
    requires KeysIn(keys, entries)
    ensures content' == content + Render(SectionLines(keys, entries, output))
    ensures items' == items + RecordCount(keys, entries)
    ensures matching' == matching + SectionMatches(keys, entries, output)
  {
    content', items', matching' := content, items, matching;
    for i := 0 to |keys|
      invariant KeysIn(keys[..i], entries)
      invariant content' == content + Render(SectionLines(keys[..i], entries, output))
      invariant items' == items + RecordCount(keys[..i], entries)
      invariant matching' == matching + SectionMatches(keys[..i], entries, output)
    {
      var key := keys[i];
      var records := entries[key];
      SectionStep(keys, i, entries, output);
      SectionTextStep(content, keys, i, entries, output);
      if records != [] {
        content' := content' + RenderLine(WordHeader(key));
      } else {
        assert content' + "" == content';
      }
      content', items', matching' := AppendRecords(content', records, output, items', matching');
    }
    assert keys[..|keys|] == keys;
  }

  /** The inner loop of `get_output`: one word's records, each counted and written out when it matches. */
  method AppendRecords(content: string, records: seq<Record>, output: string, items: nat, matching: nat)
    returns (content': string, items': nat, matching': nat)
    ensures content' == content + Render(RecordLines(records, output))
    ensures items' == items + |records|
    ensures matching' == matching + MatchCount(records, output)
  {
    content', items', matching' := content, items, matching;
    for j := 0 to |records|
      invariant content' == content + Render(RecordLines(records[..j], output))
      invariant items' == items + j
      invariant matching' == matching + MatchCount(records[..j], output)
    {
      RecordLinesStep(records, j, output);
      items' := items' + 1;
      if records[j].output == output {
        matching' := matching' + 1;
        StringAssoc(content, Render(RecordLines(records[..j], output)), RenderLine(Replaced(records[j].substitute, records[j].output)));
        content' := content' + RenderLine(Replaced(records[j].substitute, records[j].output));
      } else {
        assert Render(RecordLines(records[..j], output)) + "" == Render(RecordLines(records[..j], output));
      }
    }
    assert records[..|records|] == records;
  }

  /** The text of one more key: its header when its list is non-empty, then its matching records. */
  lemma SectionTextStep(content: string, keys: seq<string>, i: nat, entries: map<string, seq<Record>>, output: string)
    requires i < |keys| && KeysIn(keys, entries)
    ensures KeysIn(keys[..i + 1], entries) && KeysIn(keys[..i], entries)
    ensures content + Render(SectionLines(keys[..i + 1], entries, output)) ==
      content + Render(SectionLines(keys[..i], entries, output))
        + (if entries[keys[i]] != [] then RenderLine(WordHeader(keys[i])) else "")
        + Render(RecordLines(entries[keys[i]], output))
  {
    var records := entries[keys[i]];
    var header: seq<Line> := if records != [] then [WordHeader(keys[i])] else [];
    var before := SectionLines(keys[..i], entries, output);
    SectionStep(keys, i, entries, output);
    RenderConcat(header, RecordLines(records, output));
    if records != [] {
      RenderSingle(WordHeader(keys[i]));
    }
    RenderConcat(before, header + RecordLines(records, output));
    StringAssoc(content + Render(before), Render(header), Render(RecordLines(records, output)));
    StringAssoc(content, Render(before), Render(header + RecordLines(records, output)));
  }

  lemma RenderSingle(l: Line)
    ensures Render([l]) == RenderLine(l)
  {
    assert [l][..0] == [];
    assert "" + RenderLine(l) == RenderLine(l);
  }

  /** One more record adds its line (when it matches) and its count. */
  lemma RecordLinesStep(records: seq<Record>, j: nat, output: string)
    requires j < |records|
    ensures Render(RecordLines(records[..j + 1], output)) ==
      Render(RecordLines(records[..j], output)) +
        (if records[j].output == output then RenderLine(Replaced(records[j].substitute, records[j].output)) else "")
    ensures MatchCount(records[..j + 1], output) == MatchCount(records[..j], output) + (if records[j].output == output then 1 else 0)
  {
    assert records[..j + 1][..j] == records[..j];
    var tail := if records[j].output == output then [Replaced(records[j].substitute, records[j].output)] else [];
    RenderConcat(RecordLines(records[..j], output), tail);
    if records[j].output == output {
      RenderSingle(Replaced(records[j].substitute, records[j].output));
    } else {
      assert Render(RecordLines(records[..j], output)) + "" == Render(RecordLines(records[..j], output));
    }
  }

  /** One more key adds its header and record lines, its records and its matches. */
  lemma SectionStep(keys: seq<string>, i: nat, entries: map<string, seq<Record>>, output: string)
    requires i < |keys| && KeysIn(keys, entries)
    ensures KeysIn(keys[..i + 1], entries) && KeysIn(keys[..i], entries)
    ensures SectionLines(keys[..i + 1], entries, output) ==
      SectionLines(keys[..i], entries, output) +
        ((if entries[keys[i]] != [] then [WordHeader(keys[i])] else []) + RecordLines(entries[keys[i]], output))
    ensures RecordCount(keys[..i + 1], entries) == RecordCount(keys[..i], entries) + |entries[keys[i]]|
    ensures SectionMatches(keys[..i + 1], entries, output) == SectionMatches(keys[..i], entries, output) + MatchCount(entries[keys[i]], output)
  {
    assert keys[..i + 1][..i] == keys[..i];
    if entries[keys[i]] == [] {
      assert ([] + RecordLines(entries[keys[i]], output)) == [];
    }
  }

  /** The report `get_output` accumulates, and the two counters. */
  datatype Report = Report(content: string, items: nat, matching: nat)

  /** The opening lines of the report. */
  function ReportHeader(input: string, output: string): string {
    "Original Input " + input + "\n\nOriginal Output " + output
  }

  /**
   * The `:.2f` rendering of a share: `percent(part, items)` is the text
   * f"{part / items * 100:.2f}" gives. Float division and rounding are not
   * modelled; `MatchPercentage` is the exact value being rendered.
   */
  type Percent = (nat, nat) -> string

  /** The error the percentage division raises when no record was produced. */
  const DivisionByZero := "ZeroDivisionError: division by zero"

  /** The summary block. */
  function SummaryText(items: nat, matching: nat, percent: Percent): string
    requires 0 < items && matching <= items
  {
    var nonMatching: nat := items - matching;
    "\n\n---\nSummary"
      + "\n\nNumber of Counterfactuals: " + NatToString(items)
      + "\nNumber of Matching Predictions: " + NatToString(matching)
      + "\nPercentage of Matching Predictions: " + percent(matching, items) + "%"
      + "\n\nNumber of Non-matching Predictions: " + NatToString(nonMatching)
      + "\nPercentage of Non-matching Predictions: " + percent(nonMatching, items) + "%"
      + "\n\n---\nEnd of File"
  }

  /** `part / items * 100`. */
  function MatchPercentage(part: nat, items: nat): real
    requires items > 0
  {
    part as real / items as real * 100.0
  }

  /** The matching and non-matching percentages add up to 100. */
  lemma PercentagesAddUp(items: nat, matching: nat)
    requires 0 < items && matching <= items
    ensures MatchPercentage(matching, items) + MatchPercentage(items - matching, items) == 100.0
    ensures 0.0 <= MatchPercentage(matching, items) <= 100.0
  {
    var r := items as real;
    var m := matching as real;
    assert (items - matching) as real == r - m;
    DivAdd(m, r - m, r);
    assert m + (r - m) == r;
    assert r / r == 1.0;
    assert m / r + (r - m) / r == 1.0;
    DivBounds(m, r);
  }

  lemma DivAdd(x: real, y: real, c: real)
    requires c != 0.0
    ensures x / c + y / c == (x + y) / c
  {
  }

  lemma DivBounds(x: real, c: real)
    requires c > 0.0 && 0.0 <= x <= c
    ensures 0.0 <= x / c <= 1.0
  {
  }

  /**
   * What the report lines 91-144 of `get_output` leave behind for two
   * finished runs: the division at the percentage line fails when there is
   * no record at all.
   */
  function ReportFor(input: string, output: string, syn: Search, ant: Search, percent: Percent): (r: Result<Report, string>)
    requires KeysIn(syn.keys, syn.entries) && KeysIn(ant.keys, ant.entries)
    ensures r.Failure? <==> RecordCount(syn.keys, syn.entries) + RecordCount(ant.keys, ant.entries) == 0
    ensures r.Success? ==>
      && r.value.items == RecordCount(syn.keys, syn.entries) + RecordCount(ant.keys, ant.entries)
      && r.value.matching == SectionMatches(syn.keys, syn.entries, output) + SectionMatches(ant.keys, ant.entries, output)
      && r.value.matching <= r.value.items
  {
    CountBounds(syn.keys, syn.entries, output);
    CountBounds(ant.keys, ant.entries, output);
    var items := RecordCount(syn.keys, syn.entries) + RecordCount(ant.keys, ant.entries);
    var matching := SectionMatches(syn.keys, syn.entries, output) + SectionMatches(ant.keys, ant.entries, output);
    ReportFrom(Sections(input, output, syn, ant), items, matching, percent)
  }

  /** The report for written sections and final counters: the summary is appended, or the division fails. */
  function ReportFrom(sections: string, items: nat, matching: nat, percent: Percent): Result<Report, string>
    requires matching <= items
  {
    if items == 0 then Failure(DivisionByZero)
    else Success(Report(sections + SummaryText(items, matching, percent), items, matching))
  }

  /** The report up to the summary: the header and the two sections. */
  function Sections(input: string, output: string, syn: Search, ant: Search): string
    requires KeysIn(syn.keys, syn.entries) && KeysIn(ant.keys, ant.entries)
  {
    ReportHeader(input, output)
      + SynonymsLead + Render(SectionLines(syn.keys, syn.entries, output))
      + AntonymsLead + Render(SectionLines(ant.keys, ant.entries, output))
  }

  const SynonymsLead: string := "\n\n---\nSynonyms"
  const AntonymsLead: string := "\n\n---\nAntonyms"

  /**
   * The total number of records a finished run holds: the number of
   * single-word candidates of each distinct eligible token.
   */
  function CandidateTotal(keys: seq<string>, wordnet: WordNet, mode: int): nat
    decreases |keys|
  {
    if keys == [] then 0
    else
      var key := keys[|keys| - 1];
      CandidateTotal(keys[..|keys| - 1], wordnet, mode) + (if Eligible(key) then |SingleWords(Candidates(wordnet, mode, key))| else 0)
  }

  lemma {:induction false} RecordCountIsCandidateTotal(keys: seq<string>, entries: map<string, seq<Record>>,
                                                       input: string, llm: Model, wordnet: WordNet, mode: int)
    requires KeysIn(keys, entries) && EntriesSpec(entries, input, llm, wordnet, mode)
    ensures RecordCount(keys, entries) == CandidateTotal(keys, wordnet, mode)
    decreases |keys|
  {
    if keys != [] {
      var key := keys[|keys| - 1];
      assert KeysIn(keys[..|keys| - 1], entries);
      RecordCountIsCandidateTotal(keys[..|keys| - 1], entries, input, llm, wordnet, mode);
      if Eligible(key) {
        CounterfactualCount(entries[key], input, key, Candidates(wordnet, mode, key), llm);
      }
    }
  }

  /**
   * `num_of_items` for a finished run is its number of single-word
   * candidates over the distinct eligible tokens; an input without a token
   * longer than three characters gives none.
   */
  lemma SearchRecordCount(input: string, llm: Model, wordnet: WordNet, mode: int, s: Search)
    requires SearchSpec(input, llm, wordnet, mode, s)
    ensures RecordCount(s.keys, s.entries) == CandidateTotal(s.keys, wordnet, mode)
    ensures !SomeEligible(Words(input)) ==> RecordCount(s.keys, s.entries) == 0
  {
    RecordCountIsCandidateTotal(s.keys, s.entries, input, llm, wordnet, mode);
    if !SomeEligible(Words(input)) {
      NoRecordsIff(s.keys, s.entries);
      FirstOccurrencesShape(Words(input));
      forall i | 0 <= i < |s.keys| ensures s.entries[s.keys[i]] == [] {
        assert s.keys[i] in Words(input);
      }
    }
  }

  /** The header and both sections of the report, with the counters they add up. */
  method WriteSections(input: string, output: string, syn: Search, ant: Search)
    returns (content: string, items: nat, matching: nat)
    requires KeysIn(syn.keys, syn.entries) && KeysIn(ant.keys, ant.entries)
    ensures content == Sections(input, output, syn, ant)
    ensures items == RecordCount(syn.keys, syn.entries) + RecordCount(ant.keys, ant.entries)
    ensures matching == SectionMatches(syn.keys, syn.entries, output) + SectionMatches(ant.keys, ant.entries, output)
  {
    content := ReportHeader(input, output);
    items, matching := 0, 0;
    content := content + SynonymsLead;
    content, items, matching := AppendSection(content, syn.keys, syn.entries, output, items, matching);
    content := content + AntonymsLead;
    content, items, matching := AppendSection(content, ant.keys, ant.entries, output, items, matching);
  }

  /**
   * The report part of `get_output` for two finished runs: the header, both
   * sections with their counters, and the summary, whose percentage
   * division raises when no record was produced.
   */
  method Summarise(input: string, output: string, syn: Search, ant: Search, percent: Percent)
    returns (r: Result<Report, string>)
    requires KeysIn(syn.keys, syn.entries) && KeysIn(ant.keys, ant.entries)
    ensures r == ReportFor(input, output, syn, ant, percent)
  {
    var content, items, matching := WriteSections(input, output, syn, ant);
    CountBounds(syn.keys, syn.entries, output);
    CountBounds(ant.keys, ant.entries, output);
    if items == 0 {
      return Failure(DivisionByZero);
    }
    r := ReportFrom(content, items, matching, percent);
  }

  /**
   * `get_output(window, input, output, llm)`: the synonym run, the antonym
   * run, then the report. An input without a token longer than three
   * characters produces no record and so always ends in the division error.
   * The analysis call and the file save are left out.
   */
  method GetOutput(input: string, output: string, llm: Model, wordnet: WordNet, percent: Percent)
    returns (syn: Search, ant: Search, r: Result<Report, string>)
    ensures SearchSpec(input, llm, wordnet, Synonym, syn)
    ensures SearchSpec(input, llm, wordnet, Antonym, ant)
    ensures r == ReportFor(input, output, syn, ant, percent)
    ensures !SomeEligible(Words(input)) ==> r.Failure?
  {
    var synRun := CounterfactualOutputs(input, llm, wordnet, Synonym);
    var antRun := CounterfactualOutputs(input, llm, wordnet, Antonym);
    syn, ant := synRun.value, antRun.value;
    r := Summarise(input, output, syn, ant, percent);
    SearchRecordCount(input, llm, wordnet, Synonym, syn);
    SearchRecordCount(input, llm, wordnet, Antonym, ant);
  }
}
