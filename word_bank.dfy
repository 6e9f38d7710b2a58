/** The sentence-construction card of SentenceConstructionCard.tsx: two lists of
    id-tagged words (the selection and the bank), the tap handlers that move a word
    between them, and the matcher that turns a speech transcript into a selection. */
module WordBank {
  import opened Wrappers
  import opened Types
  import JsText

  /** A tile of the card (SentenceConstructionCard.tsx:14-17); the id is the word's
      position in the question's word bank. */
  datatype Word = Word(id: nat, text: string)

  /** The speech-recognition tags of `getLanguageCode`. */
  const LanguageCodes: map<string, string> :=
    map["English" := "en-US", "French" := "fr-FR", "German" := "de-DE",
        "Italian" := "it-IT", "Japanese" := "ja-JP", "Spanish" := "es-ES"]

  /** The target languages of the catalog in constants.ts. */
  const CatalogLanguages: seq<string> := ["English", "French", "German", "Italian", "Japanese", "Spanish"]

  /** `getLanguageCode`: the tag of a listed language, 'en-US' for any other name. */
  function LanguageCode(languageName: string): (code: string)
    ensures languageName in LanguageCodes ==> code == LanguageCodes[languageName]
    ensures languageName !in LanguageCodes ==> code == "en-US"
    ensures code in LanguageCodes.Values
  {
    if languageName in LanguageCodes then LanguageCodes[languageName]
    else
      assert LanguageCodes["English"] == "en-US";
      "en-US"
  }

  /** Every language of the catalog gets a tag of its own. */
  lemma CatalogCodesDistinct(i: nat, j: nat)
    requires i < |CatalogLanguages| && j < |CatalogLanguages|
    requires LanguageCode(CatalogLanguages[i]) == LanguageCode(CatalogLanguages[j])
    ensures i == j
  {
  }

  /** `words.map(w => w.text)`: what the card reports through `onAnswer`. */
  function Texts(ws: seq<Word>): (texts: seq<string>)
    ensures |texts| == |ws|
  {
    seq(|ws|, i requires 0 <= i < |ws| => ws[i].text)
  }

  /** The texts of two lists of tiles, one after the other, are the texts of the tiles
      one after the other: the map keeps the order of the tiles. */
  lemma TextsAppend(a: seq<Word>, b: seq<Word>)
    ensures Texts(a + b) == Texts(a) + Texts(b)
    ensures |a| == 1 ==> Texts(a) == [a[0].text]
  {
  }

  /** No two tiles share an id. */
  ghost predicate UniqueIds(ws: seq<Word>)
  {
    forall i, j :: 0 <= i < j < |ws| ==> ws[i].id != ws[j].id
  }

  /** `question.wordBank.map((text, id) => ({ id, text }))`: the tiles of a word bank
      have distinct ids and show exactly the bank's words, in order. */
  function Indexed(texts: seq<string>): (ws: seq<Word>)
    ensures UniqueIds(ws)
    ensures Texts(ws) == texts
  {
    seq(|texts|, i requires 0 <= i < |texts| => Word(i, texts[i]))
  }

  /** `ws.filter(w => w.id !== id)` */
  function RemoveId(ws: seq<Word>, id: nat): (r: seq<Word>)
    ensures |r| <= |ws|
    ensures forall w {:trigger w in r} :: w in r <==> w in ws && w.id != id
  {
    if |ws| == 0 then []
    else (if ws[0].id == id then [] else [ws[0]]) + RemoveId(ws[1..], id)
  }

  /** Filtering out the id of a tile whose id is unique removes exactly that tile,
      at its position, and keeps the order of the others. */
  lemma {:induction false} RemoveUniqueId(ws: seq<Word>, k: nat)
    requires k < |ws|
    requires UniqueIds(ws)
    ensures RemoveId(ws, ws[k].id) == ws[..k] + ws[k + 1..]
  {
    var id := ws[k].id;
    var tail := ws[1..];
    if k == 0 {
      HeadIdNotLater(ws);
      NoIdLeft(tail, id);
      assert RemoveId(ws, id) == [] + RemoveId(tail, id);
    } else {
      UniqueTail(ws);
      assert tail[k - 1] == ws[k];
      RemoveUniqueId(tail, k - 1);
      assert ws[0].id != id;
      assert RemoveId(ws, id) == [ws[0]] + RemoveId(tail, id);
      assert ws[..k] == [ws[0]] + tail[..k - 1];
      assert tail[k..] == ws[k + 1..];
    }
  }

  /** The first tile's id occurs nowhere else. */
  lemma HeadIdNotLater(ws: seq<Word>)
    requires |ws| > 0 && UniqueIds(ws)
    ensures forall i :: 0 <= i < |ws[1..]| ==> ws[1..][i].id != ws[0].id
  {
    forall i | 0 <= i < |ws[1..]| ensures ws[1..][i].id != ws[0].id {
      assert ws[1..][i] == ws[i + 1];
    }
  }

  /** Dropping the first tile keeps the ids distinct. */
  lemma UniqueTail(ws: seq<Word>)
    requires |ws| > 0 && UniqueIds(ws)
    ensures UniqueIds(ws[1..])
  {
    var tail := ws[1..];
    forall i, j | 0 <= i < j < |tail| ensures tail[i].id != tail[j].id {
      assert tail[i] == ws[i + 1] && tail[j] == ws[j + 1];
    }
  }

  /** Filtering an id no tile carries changes nothing. */
  lemma {:induction false} NoIdLeft(ws: seq<Word>, id: nat)
    requires forall i :: 0 <= i < |ws| ==> ws[i].id != id
    ensures RemoveId(ws, id) == ws
  {
    if |ws| > 0 {
      NoIdLeft(ws[1..], id);
      assert ws == [ws[0]] + ws[1..];
    }
  }

  /** Two equal entries of a sequence make its multiset count them twice, and conversely. */
  lemma {:induction false} TwiceIn<T>(s: seq<T>, x: T)
    requires multiset(s)[x] >= 2
    ensures exists p, q :: 0 <= p < q < |s| && s[p] == x && s[q] == x
  {
    assert x in s;
    var p :| 0 <= p < |s| && s[p] == x;
    assert s == s[..p] + [x] + s[p + 1..];
    assert multiset(s) == multiset(s[..p]) + multiset{x} + multiset(s[p + 1..]);
    if x in s[..p] {
      var q :| 0 <= q < p && s[..p][q] == x;
      assert s[q] == x;
    } else {
      assert x in s[p + 1..];
      var q :| 0 <= q < |s| - p - 1 && s[p + 1..][q] == x;
      assert s[p + 1 + q] == x;
    }
  }

  /** Rearranging tiles keeps their ids distinct. */
  lemma PermutationKeepsIdsUnique(a: seq<Word>, b: seq<Word>)
    requires UniqueIds(a)
    requires multiset(a) == multiset(b)
    ensures UniqueIds(b)
  {
    forall i, j | 0 <= i < j < |b| ensures b[i].id != b[j].id {
      if b[i] == b[j] {
        assert b == b[..j] + b[j..];
        assert b[i] in b[..j] && b[j] in b[j..];
        assert multiset(b) == multiset(b[..j]) + multiset(b[j..]);
        TwiceIn(a, b[i]);
      } else {
        assert b[i] in multiset(a) && b[j] in multiset(a);
        var p :| 0 <= p < |a| && a[p] == b[i];
        var q :| 0 <= q < |a| && a[q] == b[j];
        assert p != q;
      }
    }
  }

  /** The lists a tap or a transcript produces: the selection and what is left of the bank. */
  datatype Selection = Selection(selected: seq<Word>, available: seq<Word>)

  /** `availableWords.findIndex(w => w.text.toLowerCase() === token)`: the first tile whose
      lower-cased text is the token, or -1. */
  function FindIndex(ws: seq<Word>, token: string): (k: int)
    ensures -1 <= k < |ws|
    ensures k >= 0 ==> JsText.Lower(ws[k].text) == token
    ensures k >= 0 ==> forall j :: 0 <= j < k ==> JsText.Lower(ws[j].text) != token
    ensures k == -1 ==> forall j :: 0 <= j < |ws| ==> JsText.Lower(ws[j].text) != token
  {
    if |ws| == 0 then -1
    else if JsText.Lower(ws[0].text) == token then 0
    else
      var k := FindIndex(ws[1..], token);
      if k == -1 then -1 else k + 1
  }

  /** The pieces of a transcript the matcher walks over: lower-cased, punctuation
      deleted, split on single spaces. */
  function SpokenWords(transcript: string): (pieces: seq<string>)
    ensures |pieces| >= 1
    ensures forall i :: 0 <= i < |pieces| ==> ' ' !in pieces[i]
    ensures forall i, ch :: 0 <= i < |pieces| && ch in pieces[i] ==> ch !in JsText.Punctuation
  {
    var parts := JsText.SplitOn(JsText.StripPunctuation(JsText.Lower(transcript)), ' ');
    SpokenCharsClean(transcript, parts);
    parts
  }

  /** The pieces hold only characters of the stripped transcript. */
  lemma SpokenCharsClean(transcript: string, parts: seq<string>)
    requires parts == JsText.SplitOn(JsText.StripPunctuation(JsText.Lower(transcript)), ' ')
    ensures forall i, ch :: 0 <= i < |parts| && ch in parts[i] ==> ch !in JsText.Punctuation
  {
    var stripped := JsText.StripPunctuation(JsText.Lower(transcript));
    forall i, ch | 0 <= i < |parts| && ch in parts[i]
      ensures ch !in JsText.Punctuation
    {
      JsText.SplitOnKeepsChars(stripped, ' ', i);
      var k :| 0 <= k < |stripped| && stripped[k] == ch;
    }
  }

  /** One turn of the matching loop: a piece that trims to nothing is skipped; otherwise the
      first available tile that matches it moves to the selection, and an unmatched piece is dropped. */
  function MatchStep(s: Selection, spokenWord: string): (t: Selection)
    ensures s.selected <= t.selected && |t.selected| <= |s.selected| + 1
    ensures |t.selected| + |t.available| == |s.selected| + |s.available|
  {
    var token := JsText.Trim(spokenWord);
    if token == "" then s
    else
      var k := FindIndex(s.available, token);
      if k > -1 then Selection(s.selected + [s.available[k]], s.available[..k] + s.available[k + 1..])
      else s
  }

  /** The matching loop over the first pieces of a transcript, from the initial bank. */
  function Match(bank: seq<Word>, spoken: seq<string>): (m: Selection)
    ensures |m.selected| <= |spoken|
    ensures |m.selected| + |m.available| == |bank|
  {
    if |spoken| == 0 then Selection([], bank)
    else MatchStep(Match(bank, spoken[..|spoken| - 1]), spoken[|spoken| - 1])
  }

  /** The non-empty trimmed pieces, in transcript order. */
  function Tokens(spoken: seq<string>): seq<string>
  {
    if |spoken| == 0 then []
    else
      var t := JsText.Trim(spoken[|spoken| - 1]);
      Tokens(spoken[..|spoken| - 1]) + (if t == "" then [] else [t])
  }

  /** A word the matcher looks up: not empty, without a space and without punctuation. */
  predicate IsCleanToken(t: string)
  {
    t != "" && ' ' !in t && forall ch :: ch in t ==> ch !in JsText.Punctuation
  }

  /** Trimming clean pieces, and skipping the empty ones, leaves clean tokens. */
  lemma {:induction false} CleanPiecesGiveCleanTokens(spoken: seq<string>)
    requires forall i :: 0 <= i < |spoken| ==> ' ' !in spoken[i]
    requires forall i, ch :: 0 <= i < |spoken| && ch in spoken[i] ==> ch !in JsText.Punctuation
    ensures forall j :: 0 <= j < |Tokens(spoken)| ==> IsCleanToken(Tokens(spoken)[j])
  {
    if |spoken| > 0 {
      var init, last := spoken[..|spoken| - 1], spoken[|spoken| - 1];
      assert forall i :: 0 <= i < |init| ==> init[i] == spoken[i];
      CleanPiecesGiveCleanTokens(init);
      var t := JsText.Trim(last);
      var ts := Tokens(init);
      if t != "" {
        TrimmedPieceIsClean(last);
        assert Tokens(spoken) == ts + [t];
        forall j | 0 <= j < |ts| + 1 ensures IsCleanToken((ts + [t])[j]) {
          if j < |ts| { assert (ts + [t])[j] == ts[j]; }
        }
      } else {
        assert Tokens(spoken) == ts;
      }
    }
  }

  /** Trimming a piece free of spaces and punctuation leaves a clean token, or nothing. */
  lemma TrimmedPieceIsClean(piece: string)
    requires ' ' !in piece
    requires forall ch :: ch in piece ==> ch !in JsText.Punctuation
    ensures JsText.Trim(piece) != "" ==> IsCleanToken(JsText.Trim(piece))
  {
    JsText.TrimKeepsChars(piece);
  }

  /** Every token the matcher looks up in the bank is a non-empty word without spaces or
      punctuation: a tile whose lower-cased text holds a space or punctuation is never
      matched. */
  lemma TranscriptTokensAreClean(transcript: string)
    ensures forall j :: 0 <= j < |Tokens(SpokenWords(transcript))| ==> IsCleanToken(Tokens(SpokenWords(transcript))[j])
  {
    CleanPiecesGiveCleanTokens(SpokenWords(transcript));
  }

  /** The lower-cased texts of the tiles. */
  function LowerTexts(ws: seq<Word>): (r: seq<string>)
    ensures |r| == |ws|
  {
    seq(|ws|, i requires 0 <= i < |ws| => JsText.Lower(ws[i].text))
  }

  /** Appending a tile appends its lower-cased text. */
  lemma LowerTextsSnoc(ws: seq<Word>, w: Word)
    ensures LowerTexts(ws + [w]) == LowerTexts(ws) + [JsText.Lower(w.text)]
  {
  }

  /** `xs` can be obtained from `ys` by deleting elements. */
  predicate IsSubsequence(xs: seq<string>, ys: seq<string>)
  {
    if |xs| == 0 then true
    else if |ys| == 0 then false
    else
      || (xs[|xs| - 1] == ys[|ys| - 1] && IsSubsequence(xs[..|xs| - 1], ys[..|ys| - 1]))
      || IsSubsequence(xs, ys[..|ys| - 1])
  }

  /** Moving the k-th element of `a` to the end of `sel` keeps the elements of both together. */
  lemma MoveToEnd<T>(sel: seq<T>, a: seq<T>, k: nat)
    requires k < |a|
    ensures multiset(sel + [a[k]] + (a[..k] + a[k + 1..])) == multiset(sel + a)
  {
    assert a == a[..k] + [a[k]] + a[k + 1..];
  }

  /** The bank tap on the k-th tile of a bank with distinct ids: the filter removes just that
      tile, the two lists keep their tiles together, and the reported texts gain its text. */
  lemma MoveBankTile(sel: seq<Word>, bank: seq<Word>, k: nat, w: Word)
    requires k < |bank| && bank[k] == w && UniqueIds(bank)
    ensures RemoveId(bank, w.id) == bank[..k] + bank[k + 1..]
    ensures multiset((sel + [w]) + RemoveId(bank, w.id)) == multiset(sel + bank)
    ensures Texts(sel + [w]) == Texts(sel) + [w.text]
  {
    RemoveUniqueId(bank, k);
    MoveToEnd(sel, bank, k);
    TextsAppend(sel, [bank[k]]);
  }

  /** Moving the k-th element of `sel` to the end of `a` keeps the elements of both together. */
  lemma MoveToBack<T>(sel: seq<T>, a: seq<T>, k: nat)
    requires k < |sel|
    ensures multiset((sel[..k] + sel[k + 1..]) + (a + [sel[k]])) == multiset(sel + a)
  {
    assert sel == sel[..k] + [sel[k]] + sel[k + 1..];
  }

  /** One turn of the loop only moves a tile from the bank to the end of the selection. */
  lemma StepIsPermutation(s: Selection, spokenWord: string)
    ensures var t := MatchStep(s, spokenWord);
      multiset(t.selected + t.available) == multiset(s.selected + s.available)
  {
    var token := JsText.Trim(spokenWord);
    if token != "" {
      var k := FindIndex(s.available, token);
      if k > -1 {
        MoveToEnd(s.selected, s.available, k);
      }
    }
  }

  /** Matching only moves tiles: the selection followed by the leftover tiles is a
      permutation of the initial bank, so every tile is used at most once. */
  lemma {:induction false} MatchIsPermutation(bank: seq<Word>, spoken: seq<string>)
    ensures var m := Match(bank, spoken); multiset(m.selected + m.available) == multiset(bank)
  {
    if |spoken| > 0 {
      var init := spoken[..|spoken| - 1];
      MatchIsPermutation(bank, init);
      StepIsPermutation(Match(bank, init), spoken[|spoken| - 1]);
    }
  }

  /** One turn of the loop: a non-empty token that some available tile spells takes such a
      tile, so the selection's texts gain the token; an empty token, or one no available tile
      spells, changes nothing. */
  lemma StepFollowsToken(s: Selection, spokenWord: string)
    ensures var token := JsText.Trim(spokenWord);
      var t := MatchStep(s, spokenWord);
      && (token != "" && token in LowerTexts(s.available) ==>
            LowerTexts(t.selected) == LowerTexts(s.selected) + [token])
      && (token == "" || token !in LowerTexts(s.available) ==> t == s)
  {
    var token := JsText.Trim(spokenWord);
    if token != "" {
      var k := FindIndex(s.available, token);
      if k > -1 {
        LowerTextsSnoc(s.selected, s.available[k]);
        assert LowerTexts(s.available)[k] == token;
      }
    }
  }

  /** Turn i of the matcher over a transcript's pieces: a non-empty token is appended to the
      selection's texts exactly when a tile still in the bank spells it; otherwise the
      token is dropped and nothing changes. */
  lemma MatchTakesTileIffAvailable(bank: seq<Word>, spoken: seq<string>, i: nat)
    requires i < |spoken|
    ensures var before, after := Match(bank, spoken[..i]), Match(bank, spoken[..i + 1]);
      var token := JsText.Trim(spoken[i]);
      && (token != "" && token in LowerTexts(before.available) ==>
            LowerTexts(after.selected) == LowerTexts(before.selected) + [token])
      && (token == "" || token !in LowerTexts(before.available) ==> after == before)
  {
    assert spoken[..i + 1][..i] == spoken[..i];
    StepFollowsToken(Match(bank, spoken[..i]), spoken[i]);
  }

  /** The selection follows the transcript: the lower-cased texts of the selected tiles
      are the spoken tokens in order, with the unmatched ones left out. */
  lemma {:induction false} MatchFollowsTranscript(bank: seq<Word>, spoken: seq<string>)
    ensures IsSubsequence(LowerTexts(Match(bank, spoken).selected), Tokens(spoken))
  {
    if |spoken| > 0 {
      var init, last := spoken[..|spoken| - 1], spoken[|spoken| - 1];
      MatchFollowsTranscript(bank, init);
      var token := JsText.Trim(last);
      var xs, ys := LowerTexts(Match(bank, init).selected), Tokens(init);
      var prev := Match(bank, init);
      assert Match(bank, spoken) == MatchStep(prev, last);
      assert Tokens(spoken) == ys + (if token == "" then [] else [token]);
      StepFollowsToken(prev, last);
      var xs' := LowerTexts(MatchStep(prev, last).selected);
      if token == "" {
        assert xs' == xs && Tokens(spoken) == ys;
      } else if token !in LowerTexts(prev.available) {
        assert xs' == xs;
        SubsequenceOfLonger(xs, ys, token);
      } else {
        assert xs' == xs + [token];
        SubsequenceExtend(xs, ys, token);
      }
    }
  }

  lemma SubsequenceOfLonger(xs: seq<string>, ys: seq<string>, y: string)
    requires IsSubsequence(xs, ys)
    ensures IsSubsequence(xs, ys + [y])
  {
    assert (ys + [y])[..|ys|] == ys;
  }

  lemma SubsequenceExtend(xs: seq<string>, ys: seq<string>, y: string)
    requires IsSubsequence(xs, ys)
    ensures IsSubsequence(xs + [y], ys + [y])
  {
    assert (xs + [y])[..|xs|] == xs;
    assert (ys + [y])[..|ys|] == ys;
  }

  /** One pass of the `for` loop of `recognition.onresult`: the spoken piece is trimmed, an
      empty one is skipped, and otherwise the first matching tile is spliced out of the
      available tiles and pushed onto the selection. */
  method MatchPiece(selected: seq<Word>, available: seq<Word>, piece: string)
    returns (selected': seq<Word>, available': seq<Word>)
    ensures Selection(selected', available') == MatchStep(Selection(selected, available), piece)
  {
    selected', available' := selected, available;
    var token := JsText.Trim(piece);
    if token == "" {
      return;
    }
    var k := FindIndex(available, token);
    if k > -1 {
      var found := available[k];
      available' := available[..k] + available[k + 1..];
      selected' := selected + [found];
    }
  }

  /** The `for` loop of `recognition.onresult` over the spoken pieces, from the initial bank. */
  method MatchSpoken(initialWordBank: seq<Word>, spoken: seq<string>)
    returns (selected: seq<Word>, available: seq<Word>)
    ensures Selection(selected, available) == Match(initialWordBank, spoken)
  {
    available := initialWordBank;
    selected := [];
    for i := 0 to |spoken|
      invariant Selection(selected, available) == Match(initialWordBank, spoken[..i])
    {
      assert spoken[..i + 1][..i] == spoken[..i];
      selected, available := MatchPiece(selected, available, spoken[i]);
    }
    assert spoken[..|spoken|] == spoken;
  }

  /** The body of `recognition.onresult` without its status updates: the transcript is cut
      into spoken pieces and matched against a copy of the initial bank, which the result
      rearranges without losing or duplicating a tile. */
  method MatchTranscript(initialWordBank: seq<Word>, transcript: string)
    returns (selected: seq<Word>, available: seq<Word>)
    ensures Selection(selected, available) == Match(initialWordBank, SpokenWords(transcript))
    ensures multiset(selected + available) == multiset(initialWordBank)
  {
    var spoken := SpokenWords(transcript);
    selected, available := MatchSpoken(initialWordBank, spoken);
    MatchIsPermutation(initialWordBank, spoken);
  }

  /** The card's list state. `initialWordBank` is the memoised tile list of the current question. */
  class Card {
    var initialWordBank: seq<Word>
    var selectedWords: seq<Word>
    var wordBank: seq<Word>

    /** The tiles on the card are always the question's tiles, each exactly once. */
    ghost predicate Valid()
      reads this
    {
      && UniqueIds(initialWordBank)
      && multiset(selectedWords + wordBank) == multiset(initialWordBank)
    }

    /** Mounting the card for a question: the reset effect's state. */
    constructor (question: seq<string>)
      ensures Valid()
      ensures initialWordBank == Indexed(question) && selectedWords == [] && wordBank == Indexed(question)
    {
      initialWordBank := Indexed(question);
      selectedWords := [];
      wordBank := Indexed(question);
      assert [] + Indexed(question) == Indexed(question);
    }

    /** The reset effect when the question changes: the selection is emptied, the bank is
        rebuilt with ids 0..n-1, and the empty answer is reported. */
    method ChangeQuestion(question: seq<string>) returns (reported: seq<string>)
      modifies this
      ensures Valid()
      ensures initialWordBank == Indexed(question) && selectedWords == [] && wordBank == Indexed(question)
      ensures reported == []
    {
      initialWordBank := Indexed(question);
      selectedWords := [];
      wordBank := Indexed(question);
      assert [] + Indexed(question) == Indexed(question);
      reported := [];
    }

    /** `handleWordBankClick`: while unanswered, the tapped tile goes to the end of the
        selection and leaves the bank, and the selection's texts are reported. */
    method TapBankWord(word: Word, status: AnswerStatus) returns (reported: Option<seq<string>>)
      requires Valid()
      requires word in wordBank
      modifies this`selectedWords, this`wordBank
      ensures Valid()
      ensures status != Unanswered ==>
        reported.None? && selectedWords == old(selectedWords) && wordBank == old(wordBank)
      ensures status == Unanswered ==>
        && selectedWords == old(selectedWords) + [word]
        && (exists k :: 0 <= k < |old(wordBank)| && old(wordBank)[k] == word
                        && wordBank == old(wordBank)[..k] + old(wordBank)[k + 1..])
        && reported == Some(Texts(selectedWords))
        && reported == Some(old(Texts(selectedWords)) + [word.text])
    {
      if status != Unanswered {
        return None;
      }
      var k :| 0 <= k < |wordBank| && wordBank[k] == word;
      UniqueOnCard();
      MoveBankTile(selectedWords, wordBank, k, word);
      var newSelectedWords := selectedWords + [word];
      var texts := Texts(newSelectedWords);
      selectedWords := newSelectedWords;
      wordBank := RemoveId(wordBank, word.id);
      reported := Some(texts);
    }

    /** `handleSelectedWordClick`: while unanswered, the tapped tile leaves the selection and
        goes to the end of the bank, and the selection's texts are reported. */
    method TapSelectedWord(word: Word, status: AnswerStatus) returns (reported: Option<seq<string>>)
      requires Valid()
      requires word in selectedWords
      modifies this`selectedWords, this`wordBank
      ensures Valid()
      ensures status != Unanswered ==>
        reported.None? && selectedWords == old(selectedWords) && wordBank == old(wordBank)
      ensures status == Unanswered ==>
        && (exists k :: 0 <= k < |old(selectedWords)| && old(selectedWords)[k] == word
                        && selectedWords == old(selectedWords)[..k] + old(selectedWords)[k + 1..])
        && wordBank == old(wordBank) + [word]
        && reported == Some(Texts(selectedWords))
    {
      if status != Unanswered {
        return None;
      }
      var k :| 0 <= k < |selectedWords| && selectedWords[k] == word;
      UniqueOnCard();
      RemoveUniqueId(selectedWords, k);
      MoveToBack(selectedWords, wordBank, k);
      var newSelectedWords := RemoveId(selectedWords, word.id);
      selectedWords := newSelectedWords;
      wordBank := wordBank + [word];
      reported := Some(Texts(newSelectedWords));
    }

    /** `recognition.onresult`: the selection is rebuilt from the INITIAL bank, so earlier
        taps are discarded, and its texts are reported. */
    method HearTranscript(transcript: string) returns (reported: seq<string>)
      requires Valid()
      modifies this`selectedWords, this`wordBank
      ensures Valid()
      ensures Selection(selectedWords, wordBank) == Match(initialWordBank, SpokenWords(transcript))
      ensures reported == Texts(selectedWords)
    {
      var newSelectedWords, availableWords := MatchTranscript(initialWordBank, transcript);
      selectedWords := newSelectedWords;
      wordBank := availableWords;
      reported := Texts(newSelectedWords);
    }

    /** Both lists together carry distinct ids, so each list does. */
    lemma UniqueOnCard()
      requires Valid()
      ensures UniqueIds(selectedWords) && UniqueIds(wordBank)
    {
      PermutationKeepsIdsUnique(initialWordBank, selectedWords + wordBank);
      var all := selectedWords + wordBank;
      assert forall i :: 0 <= i < |selectedWords| ==> all[i] == selectedWords[i];
      assert forall i :: 0 <= i < |wordBank| ==> all[|selectedWords| + i] == wordBank[i];
    }
  }
}
