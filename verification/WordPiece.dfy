/** The WordPiece tokenizer: a trie of the vocabulary, the longest-match search, and the loop that splits a word. */
module WordPiece {
  import opened Prelude

  /** `None` is Python's `None`: the id of the unknown token when the vocabulary lacks it. */
  type Id = Option<nat>

  type Vocab = map<string, nat>

  const UNKNOWN := "[UNK]"

  function UnknownId(vocab: Vocab): Id {
    if UNKNOWN in vocab then Some(vocab[UNKNOWN]) else None
  }

  // ----- the trie

  /** A dictionary of the trie: `next` holds its one-character keys, `id` its empty key. */
  datatype Dict = Dict(id: Option<nat>, next: map<char, Dict>)

  const EMPTY := Dict(None, map[])

  function Walk(t: Dict, s: string): Option<Dict> {
    if s == "" then Some(t) else if s[0] in t.next then Walk(t.next[s[0]], s[1..]) else None
  }

  function Find(t: Dict, s: string): Option<nat> {
    var d := Walk(t, s);
    if d.Some? then d.value.id else None
  }

  function Added(t: Dict, s: string, id: nat): Dict
    decreases |s|
  {
    if s == "" then t.(id := Some(id))
    else t.(next := t.next[s[0] := Added(if s[0] in t.next then t.next[s[0]] else EMPTY, s[1..], id)])
  }

  /** Adding a token changes what is found for that token, and for no other string. */
  lemma {:induction false} AddedIsFound(t: Dict, s: string, id: nat, q: string)
    ensures Find(Added(t, s, id), q) == if q == s then Some(id) else Find(t, q)
    decreases |s|
  {
    if s != "" && q != "" {
      assert s == [s[0]] + s[1..] && q == [q[0]] + q[1..];
      if q[0] == s[0] {
        AddedIsFound(if s[0] in t.next then t.next[s[0]] else EMPTY, s[1..], id, q[1..]);
        assert s[0] !in t.next && q[1..] != "" ==> Walk(EMPTY, q[1..]).None?;
      }
    }
  }

  /** One more character is one more step of the walk. */
  lemma {:induction false} WalkOn(t: Dict, s: string, c: char)
    ensures Walk(t, s + [c]) ==
            (var d := Walk(t, s); if d.Some? && c in d.value.next then Some(d.value.next[c]) else None)
  {
    if s == "" {
      assert s + [c] == [c];
      assert [c][1..] == "";
    } else {
      assert (s + [c])[1..] == s[1..] + [c];
      if s[0] in t.next {
        WalkOn(t.next[s[0]], s[1..], c);
      }
    }
  }

  // ----- the longest match, by the vocabulary alone

  /** The first `k` characters are a token; a match may end in '#' only if the text is a single character. */
  predicate Fits(vocab: Vocab, text: string, k: nat) {
    0 < k <= |text| && text[..k] in vocab && (|text| == 1 || text[k - 1] != '#')
  }

  function LongestUpTo(vocab: Vocab, text: string, n: nat): (k: nat)
    requires n <= |text|
    ensures k <= n && (k > 0 ==> Fits(vocab, text, k))
    ensures forall m :: k < m <= n ==> !Fits(vocab, text, m)
  {
    if n == 0 || Fits(vocab, text, n) then n else LongestUpTo(vocab, text, n - 1)
  }

  /** The length of the longest match, or 0. */
  function Longest(vocab: Vocab, text: string): (k: nat)
    ensures k <= |text| && (k > 0 ==> Fits(vocab, text, k))
    ensures forall m: nat :: m > k ==> !Fits(vocab, text, m)
  {
    LongestUpTo(vocab, text, |text|)
  }

  /** If the trie has no walk for a prefix, no longer prefix is a token. */
  lemma {:induction false} NoMatchBeyond(t: Dict, text: string, n: nat, m: nat)
    requires n <= m <= |text| && Walk(t, text[..n]).None?
    ensures Walk(t, text[..m]).None?
  {
    if n < m {
      NoMatchBeyond(t, text, n, m - 1);
      assert text[..m] == text[..m - 1] + [text[m - 1]];
      WalkOn(t, text[..m - 1], text[m - 1]);
    }
  }

  lemma {:induction false} LongestStops(vocab: Vocab, text: string, n: nat, m: nat)
    requires n <= m <= |text|
    requires forall k :: n < k <= m ==> !Fits(vocab, text, k)
    ensures LongestUpTo(vocab, text, m) == LongestUpTo(vocab, text, n)
  {
    if n < m {
      LongestStops(vocab, text, n, m - 1);
    }
  }

  /** The trie holds the vocabulary. */
  ghost predicate Agrees(t: Dict, vocab: Vocab) {
    && "" !in vocab
    && forall s: string :: s != "" ==> Find(t, s) == if s in vocab then Some(vocab[s]) else None
  }

  /** Where the walk through the text ends, the search is over. */
  lemma NoLongerMatch(t: Dict, vocab: Vocab, text: string, n: nat, d: Dict)
    requires Agrees(t, vocab) && n <= |text| && Walk(t, text[..n]) == Some(d)
    requires n < |text| ==> text[n] !in d.next
    ensures LongestUpTo(vocab, text, n) == Longest(vocab, text)
  {
    if n < |text| {
      WalkOn(t, text[..n], text[n]);
      assert text[..n + 1] == text[..n] + [text[n]];
    }
    forall k: nat | n < k <= |text|
      ensures !Fits(vocab, text, k)
    {
      NoMatchBeyond(t, text, n + 1, k);
      assert Find(t, text[..k]).None? && text[..k] != "";
    }
    LongestStops(vocab, text, n, |text|);
  }

  /**
   * What a search of the text gives: the token's id and the text after it, or the unknown id and the text but its first
   * character.
   */
  function Match(vocab: Vocab, unk: Id, text: string): (Id, string) {
    var k := Longest(vocab, text);
    if k > 0 then (Some(vocab[text[..k]]), text[k..]) else (unk, if text == "" then "" else text[1..])
  }

  class Trie {
    var data: Dict
    const unkTokenId: Id
    ghost var vocab: Vocab

    /** The trie agrees with the list of the tokens added; the empty token is never there. */
    ghost predicate Valid()
      reads this
    {
      Agrees(data, vocab)
    }

    constructor (unk: Id)
      ensures Valid() && vocab == map[] && unkTokenId == unk
    {
      data, vocab, unkTokenId := EMPTY, map[], unk;
      new;
      assert forall s: string :: s != "" ==> Walk(data, s) == None;
    }

    method Add(token: string, id: nat)
      requires Valid()
      modifies this
      ensures Valid()
      ensures vocab == if token == "" then old(vocab) else old(vocab)[token := id]
    {
      if token == "" {
        return;
      }
      forall s: string
        ensures Find(Added(data, token, id), s) == if s == token then Some(id) else Find(data, s)
      {
        AddedIsFound(data, token, id, s);
      }
      data := Added(data, token, id);
      vocab := vocab[token := id];
    }

    /** The token of the longest match in the vocabulary and the text after it, or the unknown token. */
    method GetLongestMatchToken(text: string) returns (id: Id, rest: string)
      requires Valid()
      ensures (id, rest) == Match(vocab, unkTokenId, text)
    {
      var curr := 0;
      var end, token: int := 0, -1;
      var ref := data;
      while curr < |text| && text[curr] in ref.next
        invariant curr <= |text| && Walk(data, text[..curr]) == Some(ref)
        invariant if token == -1 then LongestUpTo(vocab, text, curr) == 0
                  else LongestUpTo(vocab, text, curr) == end + 1 && text[..end + 1] in vocab
                       && token == vocab[text[..end + 1]]
      {
        WalkOn(data, text[..curr], text[curr]);
        assert text[..curr + 1] == text[..curr] + [text[curr]];
        assert Find(data, text[..curr + 1]) == ref.next[text[curr]].id;
        ref := ref.next[text[curr]];
        if ref.id.Some? && (|text| == 1 || text[curr] != '#') {
          end := curr;
          token := ref.id.value;
        }
        curr := curr + 1;
      }
      NoLongerMatch(data, vocab, text, curr, ref);
      if token == -1 {
        return unkTokenId, if text == "" then "" else text[1..];
      }
      return Some(token), text[end + 1..];
    }
  }

  // ----- splitting a word

  const CONTINUED := "##"

  predicate IsContinued(text: string) {
    |text| >= 2 && text[..2] == CONTINUED
  }

  /** The characters still to consume; the empty text takes one more round, which ends with the mark alone. */
  function Measure(text: string): nat {
    if text == CONTINUED then 0 else if IsContinued(text) then |text| - 1 else |text| + 1
  }

  /** A search of a continued text takes its mark and at least one more character. */
  lemma MarkIsNoMatch(vocab: Vocab, unk: Id, text: string)
    requires text != CONTINUED
    ensures Measure(CONTINUED + Match(vocab, unk, text).1) < Measure(text)
            || (IsContinued(text) && |text| > 2 && Match(vocab, unk, text).0 == unk)
    ensures IsContinued(text) && |text| > 2 ==> Measure(text[3..]) < Measure(text)
  {
    var k := Longest(vocab, text);
    if IsContinued(text) && k > 0 {
      assert text[0] == '#' && text[1] == '#';
    }
  }

  /** The ids of a word, as the loop finds them. */
  function Tokens(vocab: Vocab, text: string): seq<Id>
    decreases Measure(text)
  {
    if text == CONTINUED then []
    else
      var unk := UnknownId(vocab);
      var (id, rest) := Match(vocab, unk, text);
      MarkIsNoMatch(vocab, unk, text);
      if id == unk && |text| > 2 && IsContinued(text) then Tokens(vocab, text[3..])
      else [id] + Tokens(vocab, CONTINUED + rest)
  }

  class WordPieceTokenizer {
    const trie: Trie
    ghost var vocab: Vocab

    ghost predicate Valid()
      reads this, trie
    {
      && trie.Valid() && trie.unkTokenId == UnknownId(vocab)
      && trie.vocab == vocab - {""}
    }

    constructor (words: Vocab)
      ensures Valid() && vocab == words
    {
      trie := new Trie(UnknownId(words));
      vocab := words;
      new;
      var rest := words.Keys;
      while rest != {}
        invariant rest <= words.Keys && trie.Valid() && vocab == words
        invariant trie.vocab == words - rest - {""}
        decreases rest
      {
        var token :| token in rest;
        trie.Add(token, words[token]);
        rest := rest - {token};
      }
    }

    method WordpieceTokenize(word: string) returns (tokenIds: seq<Id>)
      requires Valid()
      ensures tokenIds == Tokens(vocab - {""}, word)
    {
      tokenIds := [];
      var text := word;
      while text != CONTINUED
        invariant tokenIds + Tokens(trie.vocab, text) == Tokens(trie.vocab, word)
        decreases Measure(text)
      {
        var oldText := text;
        var id;
        id, text := trie.GetLongestMatchToken(text);
        assert UnknownId(trie.vocab) == trie.unkTokenId;
        MarkIsNoMatch(trie.vocab, trie.unkTokenId, oldText);
        if id == trie.unkTokenId && |oldText| > 2 && IsContinued(oldText) {
          text := oldText[3..];
          continue;
        }
        text := CONTINUED + text;
        tokenIds := tokenIds + [id];
      }
    }
  }

  // ----- what the ids mean

  /** The text is read greedily, piece by piece: a piece after the first is looked up with the mark in front. */
  function PieceUpTo(vocab: Vocab, continued: bool, rest: string, n: nat): (k: nat)
    requires n <= |rest|
    ensures k <= n && (k > 0 ==> Spelled(continued, rest[..k]) in vocab)
    ensures forall m :: k < m <= n ==> Spelled(continued, rest[..m]) !in vocab
  {
    if n == 0 || Spelled(continued, rest[..n]) in vocab then n else PieceUpTo(vocab, continued, rest, n - 1)
  }

  function Spelled(continued: bool, piece: string): string {
    (if continued then CONTINUED else "") + piece
  }

  /** What happened to a part of the word: it is a token, it is unknown, or it is dropped without a trace. */
  datatype Piece = Known(token: string) | Unknown | Dropped

  /**
   * Greedy longest-match-first tokenization. An unknown character inside a word is dropped, and what follows starts a
   * new word.
   */
  function Greedy(vocab: Vocab, continued: bool, rest: string): seq<Piece>
    decreases |rest|
  {
    if rest == "" then if continued then [] else [Unknown]
    else
      var k := PieceUpTo(vocab, continued, rest, |rest|);
      if k > 0 then [Known(Spelled(continued, rest[..k]))] + Greedy(vocab, true, rest[k..])
      else if continued then [Dropped] + Greedy(vocab, false, rest[1..])
      else [Unknown] + Greedy(vocab, true, rest[1..])
  }

  function Ids(vocab: Vocab, pieces: seq<Piece>): seq<Id> {
    if pieces == [] then []
    else
      (match pieces[0]
       case Known(token) => if token in vocab then [Some(vocab[token])] else []
       case Unknown => [UnknownId(vocab)]
       case Dropped => []) + Ids(vocab, pieces[1..])
  }

  /** No continuation token shares its id with the unknown token. */
  predicate UnknownStandsAlone(vocab: Vocab) {
    forall token :: token in vocab && IsContinued(token) ==> Some(vocab[token]) != UnknownId(vocab)
  }

  function MarkLength(continued: bool): nat {
    if continued then 2 else 0
  }

  /** In a text without other '#', exactly the matches that go past the mark are pieces. */
  lemma FitIsPiece(vocab: Vocab, continued: bool, rest: string, m: nat)
    requires rest != "" && '#' !in rest && "" !in vocab
    ensures var mark := MarkLength(continued);
            Fits(vocab, Spelled(continued, rest), m) <==>
            mark < m <= mark + |rest| && Spelled(continued, rest[..m - mark]) in vocab
  {
    var text := Spelled(continued, rest);
    var mark := MarkLength(continued);
    assert |text| == mark + |rest|;
    if 0 < m <= mark {
      assert text[m - 1] == '#';
    } else if mark < m <= |text| {
      assert text[..m] == Spelled(continued, rest[..m - mark]);
      assert text[m - 1] == rest[m - 1 - mark] && rest[m - 1 - mark] in rest;
    }
  }

  lemma LongestIsLongest(vocab: Vocab, text: string, m: nat)
    requires Fits(vocab, text, m)
    ensures m <= Longest(vocab, text)
  {
  }

  lemma PieceIsLongest(vocab: Vocab, continued: bool, rest: string, m: nat)
    requires m <= |rest| && Spelled(continued, rest[..m]) in vocab
    ensures m <= PieceUpTo(vocab, continued, rest, |rest|)
  {
  }

  lemma PieceFits(vocab: Vocab, continued: bool, rest: string, k: nat)
    requires rest != "" && '#' !in rest && "" !in vocab && k == PieceUpTo(vocab, continued, rest, |rest|) > 0
    ensures k + MarkLength(continued) <= Longest(vocab, Spelled(continued, rest))
  {
    var m := k + MarkLength(continued);
    FitIsPiece(vocab, continued, rest, m);
    LongestIsLongest(vocab, Spelled(continued, rest), m);
  }

  lemma MatchIsPiece(vocab: Vocab, continued: bool, rest: string, found: nat)
    requires rest != "" && '#' !in rest && "" !in vocab && found == Longest(vocab, Spelled(continued, rest)) > 0
    ensures MarkLength(continued) < found <= PieceUpTo(vocab, continued, rest, |rest|) + MarkLength(continued)
  {
    FitIsPiece(vocab, continued, rest, found);
    PieceIsLongest(vocab, continued, rest, found - MarkLength(continued));
  }

  lemma PieceIsMatch(vocab: Vocab, continued: bool, rest: string)
    requires rest != "" && '#' !in rest && "" !in vocab
    ensures var k := PieceUpTo(vocab, continued, rest, |rest|);
            Longest(vocab, Spelled(continued, rest)) == if k == 0 then 0 else k + MarkLength(continued)
  {
    var k, found := PieceUpTo(vocab, continued, rest, |rest|), Longest(vocab, Spelled(continued, rest));
    if k > 0 {
      PieceFits(vocab, continued, rest, k);
    }
    if found > 0 {
      MatchIsPiece(vocab, continued, rest, found);
    }
  }

  lemma KnownStep(vocab: Vocab, continued: bool, rest: string)
    requires '#' !in rest && "" !in vocab && UnknownStandsAlone(vocab)
    ensures var k := PieceUpTo(vocab, continued, rest, |rest|);
            k > 0 ==> Tokens(vocab, Spelled(continued, rest)) ==
                      [Some(vocab[Spelled(continued, rest[..k])])] + Tokens(vocab, Spelled(true, rest[k..]))
  {
    var k := PieceUpTo(vocab, continued, rest, |rest|);
    if k > 0 {
      PieceIsMatch(vocab, continued, rest);
      var text := Spelled(continued, rest);
      var token := Spelled(continued, rest[..k]);
      assert text[..k + MarkLength(continued)] == token && text[k + MarkLength(continued)..] == rest[k..];
      assert text[|text| - 1] in rest && (!continued ==> text[0] in rest);
    }
  }

  lemma UnknownStep(vocab: Vocab, continued: bool, rest: string)
    requires '#' !in rest && "" !in vocab && rest != ""
    ensures PieceUpTo(vocab, continued, rest, |rest|) == 0 ==>
              Tokens(vocab, Spelled(continued, rest)) ==
              if continued then Tokens(vocab, rest[1..])
              else [UnknownId(vocab)] + Tokens(vocab, Spelled(true, rest[1..]))
  {
    PieceIsMatch(vocab, continued, rest);
    var text := Spelled(continued, rest);
    assert text[|text| - 1] in rest && (!continued ==> text == rest && text[0] in rest);
    assert continued ==> text[3..] == rest[1..];
  }

  /** On words without '#', the loop is the greedy tokenization. */
  lemma {:induction false} TokensAreGreedy(vocab: Vocab, continued: bool, rest: string)
    requires '#' !in rest && "" !in vocab && UnknownStandsAlone(vocab)
    ensures Tokens(vocab, Spelled(continued, rest)) == Ids(vocab, Greedy(vocab, continued, rest))
    decreases |rest|
  {
    if rest == "" {
      NothingLeft(vocab, continued);
    } else {
      var k := PieceUpTo(vocab, continued, rest, |rest|);
      if k > 0 {
        KnownStep(vocab, continued, rest);
        TokensAreGreedy(vocab, true, rest[k..]);
        IdsStep(vocab, Known(Spelled(continued, rest[..k])), Greedy(vocab, true, rest[k..]));
      } else {
        UnknownStep(vocab, continued, rest);
        assert Spelled(false, rest[1..]) == rest[1..];
        TokensAreGreedy(vocab, !continued, rest[1..]);
        IdsStep(vocab, if continued then Dropped else Unknown, Greedy(vocab, !continued, rest[1..]));
      }
    }
  }

  lemma IdsStep(vocab: Vocab, p: Piece, pieces: seq<Piece>)
    ensures Ids(vocab, [p] + pieces) ==
            (match p
             case Known(token) => if token in vocab then [Some(vocab[token])] else []
             case Unknown => [UnknownId(vocab)]
             case Dropped => []) + Ids(vocab, pieces)
  {
    assert ([p] + pieces)[1..] == pieces;
  }

  /** Nothing is left: a word that was read to its end adds no id, and an empty one is unknown. */
  lemma NothingLeft(vocab: Vocab, continued: bool)
    requires "" !in vocab
    ensures Tokens(vocab, Spelled(continued, "")) == Ids(vocab, Greedy(vocab, continued, ""))
  {
    assert Spelled(true, "") == CONTINUED;
    assert Tokens(vocab, CONTINUED) == [];
  }

  // ----- back to text

  /** The tokens one after the other with spaces between them, as `" ".join` writes them after the first. */
  function Joined(tokens: seq<string>): string {
    if tokens == [] then "" else if |tokens| == 1 then tokens[0] else tokens[0] + " " + Joined(tokens[1..])
  }

  /** `replace(" ##", "")`. */
  function Unmarked(s: string): string {
    if s == "" then ""
    else if |s| >= 3 && s[..3] == " ##" then Unmarked(s[3..])
    else [s[0]] + Unmarked(s[1..])
  }

  predicate AllKnown(pieces: seq<Piece>) {
    forall p :: p in pieces ==> p.Known?
  }

  function Spelling(pieces: seq<Piece>): seq<string>
    requires AllKnown(pieces)
  {
    if pieces == [] then [] else [pieces[0].token] + Spelling(pieces[1..])
  }

  lemma {:induction false} UnmarkedWord(word: string, s: string)
    requires ' ' !in word
    ensures Unmarked(word + s) == word + Unmarked(s)
  {
    if word == "" {
      assert word + s == s;
    } else {
      assert (word + s)[1..] == word[1..] + s && word[0] in word;
      assert |word + s| >= 3 ==> (word + s)[..3][0] == word[0];
      UnmarkedWord(word[1..], s);
    }
  }

  lemma UnmarkedMark(s: string)
    ensures Unmarked(" ##" + s) == Unmarked(s)
  {
    assert (" ##" + s)[3..] == s && (" ##" + s)[..3] == " ##";
  }

  /** The text of a continuation, with the space before it. */
  function Tail(pieces: seq<Piece>): string
    requires AllKnown(pieces)
  {
    if pieces == [] then "" else " " + Joined(Spelling(pieces))
  }

  lemma JoinedStep(pieces: seq<Piece>)
    requires AllKnown(pieces) && pieces != []
    ensures AllKnown(pieces[1..]) && Joined(Spelling(pieces)) == pieces[0].token + Tail(pieces[1..])
  {
    assert pieces[1..] == [] ==> Spelling(pieces) == [pieces[0].token];
  }

  lemma PieceIsRestored(rest: string, k: nat, tail: string)
    requires ' ' !in rest && k <= |rest| && Unmarked(tail) == rest[k..]
    ensures Unmarked(rest[..k] + tail) == rest
  {
    UnmarkedWord(rest[..k], tail);
    assert rest == rest[..k] + rest[k..];
  }

  lemma ContinuationIsRestored(rest: string, k: nat, tail: string)
    requires ' ' !in rest && k <= |rest| && Unmarked(tail) == rest[k..]
    ensures Unmarked(" " + (Spelled(true, rest[..k]) + tail)) == rest
  {
    PieceIsRestored(rest, k, tail);
    assert " " + (Spelled(true, rest[..k]) + tail) == " ##" + (rest[..k] + tail);
    UnmarkedMark(rest[..k] + tail);
  }

  lemma {:induction false} ContinuationsAreRestored(vocab: Vocab, rest: string)
    requires ' ' !in rest && AllKnown(Greedy(vocab, true, rest))
    ensures Unmarked(Tail(Greedy(vocab, true, rest))) == rest
    decreases |rest|
  {
    if rest != "" {
      var pieces := Greedy(vocab, true, rest);
      assert pieces[0] in pieces;
      var k := PieceUpTo(vocab, true, rest, |rest|);
      assert pieces[1..] == Greedy(vocab, true, rest[k..]);
      JoinedStep(pieces);
      ContinuationsAreRestored(vocab, rest[k..]);
      ContinuationIsRestored(rest, k, Tail(pieces[1..]));
    }
  }

  /** Joining the tokens of a word all of whose pieces are known, and removing the marks, gives the word back. */
  lemma KnownWordsAreRestored(vocab: Vocab, word: string)
    requires ' ' !in word && AllKnown(Greedy(vocab, false, word))
    ensures Unmarked(Joined(Spelling(Greedy(vocab, false, word)))) == word
  {
    var pieces := Greedy(vocab, false, word);
    assert pieces[0] in pieces;
    var k := PieceUpTo(vocab, false, word, |word|);
    assert pieces[1..] == Greedy(vocab, true, word[k..]);
    JoinedStep(pieces);
    ContinuationsAreRestored(vocab, word[k..]);
    PieceIsRestored(word, k, Tail(pieces[1..]));
    assert pieces[0].token == word[..k];
  }

  // ----- the vocabulary file

  /** Every line is a token, numbered by the last line that has it. */
  method LoadVocab(lines: seq<string>) returns (vocab: Vocab)
    ensures forall token :: token in vocab <==> token in lines
    ensures forall token :: token in vocab ==> vocab[token] < |lines| && lines[vocab[token]] == token
    ensures forall i :: 0 <= i < |lines| ==> lines[i] in vocab && i <= vocab[lines[i]]
  {
    vocab := map[];
    for i := 0 to |lines|
      invariant forall token :: token in vocab <==> token in lines[..i]
      invariant forall token :: token in vocab ==> vocab[token] < i && lines[vocab[token]] == token
      invariant forall j :: 0 <= j < i ==> lines[j] in vocab && j <= vocab[lines[j]]
    {
      vocab := vocab[lines[i] := i];
      assert lines[..i + 1] == lines[..i] + [lines[i]];
    }
    assert lines[..|lines|] == lines;
  }

  /** In a vocabulary numbered by its lines, the unknown token shares its id with no other. */
  lemma NumberedByLines(lines: seq<string>, vocab: Vocab)
    requires forall token :: token in vocab ==> vocab[token] < |lines| && lines[vocab[token]] == token
    ensures UnknownStandsAlone(vocab) && UnknownStandsAlone(vocab - {""})
  {
    assert UNKNOWN[..2][0] == '[' && CONTINUED[0] == '#';
    assert UnknownId(vocab - {""}) == UnknownId(vocab);
  }

  /** The only word with '#' that the splitter makes is "#" itself. */
  lemma HashIsOneToken(vocab: Vocab)
    ensures Tokens(vocab, "#") ==
            [if "#" in vocab then Some(vocab["#"]) else if "[UNK]" in vocab then Some(vocab["[UNK]"]) else None]
  {
    var text: string := "#";
    var found := Match(vocab, UnknownId(vocab), text);
    assert text[..1] == text && text[1..] == "";
    assert Fits(vocab, text, 1) <==> text in vocab;
    assert found == (if text in vocab then Some(vocab[text]) else UnknownId(vocab), "");
    assert CONTINUED + "" == CONTINUED;
    assert Tokens(vocab, CONTINUED + found.1) == [];
  }

  /** The tokenizer of a vocabulary file splits a word without '#' greedily, and takes "#" as a token. */
  method TokenizeWord(lines: seq<string>, word: string) returns (vocab: Vocab, tokenIds: seq<Id>)
    ensures '#' !in word ==> tokenIds == Ids(vocab - {""}, Greedy(vocab - {""}, false, word))
    ensures word == "#" ==>
              tokenIds == [if "#" in vocab then Some(vocab["#"])
                           else if "[UNK]" in vocab then Some(vocab["[UNK]"]) else None]
    ensures forall token :: token in vocab ==> vocab[token] < |lines| && lines[vocab[token]] == token
  {
    vocab := LoadVocab(lines);
    var tokenizer := new WordPieceTokenizer(vocab);
    tokenIds := tokenizer.WordpieceTokenize(word);
    NumberedByLines(lines, vocab);
    if '#' !in word {
      TokensAreGreedy(vocab - {""}, false, word);
      assert Spelled(false, word) == word;
    }
    if word == "#" {
      HashIsOneToken(vocab - {""});
      assert UnknownId(vocab - {""}) == UnknownId(vocab);
    }
  }
}
