/** `profanity_check`: does a submitted text contain a forbidden word? */
module Profanity {
  import opened PyStr

  /** The characters removed from the text before it is split into words. */
  const PUNCTUATION: string := ",.?!/'\";:-<>(){}[]|\\_@#$%^&*+="

  /** Removing one more character from text already without `cs` gives the text without
      `cs` and that character. */
  lemma {:induction false} RemoveCharWithout(s: string, cs: string, c: char)
    ensures RemoveChar(Without(s, cs), c) == Without(s, cs + [c])
    decreases |s|
  {
    if s != [] {
      RemoveCharWithout(s[1..], cs, c);
      assert (s[0] in cs + [c]) <==> (s[0] in cs || s[0] == c);
      var w := Without(s[1..], cs);
      if s[0] !in cs {
        var t := [s[0]] + w;
        assert Without(s, cs) == t;
        assert t[0] == s[0] && t[1..] == w;
        assert RemoveChar(t, c) == (if s[0] == c then [] else [s[0]]) + RemoveChar(w, c);
      } else {
        assert Without(s, cs) == w;
      }
    }
  }

  lemma {:induction false} WithoutNothing(s: string)
    ensures Without(s, []) == s
    decreases |s|
  {
    if s != [] {
      WithoutNothing(s[1..]);
    }
  }

  /** The text with its punctuation removed. */
  function Stripped(quote: string): string {
    Without(quote, PUNCTUATION)
  }

  /** The words the text is checked by: the stripped text split on single spaces. */
  function Words(quote: string): seq<string> {
    Split(Stripped(quote), " ")
  }

  /** The stripped text holds no punctuation, and every character of the text that is not
      punctuation. */
  lemma StrippedIsClean(quote: string)
    ensures forall c :: c in Stripped(quote) <==> c in quote && c !in PUNCTUATION
  {
    WithoutMembers(quote, PUNCTUATION);
  }

  /** The words hold no space, and rejoined with spaces they give the
      stripped text back. */
  lemma WordsRejoin(quote: string)
    ensures Join(Words(quote), " ") == Stripped(quote)
    ensures forall w :: w in Words(quote) ==> ' ' !in w
  {
    JoinSplit(Stripped(quote), " ");
    SplitPiecesAvoidChar(Stripped(quote), ' ');
  }

  /** `word` equals some entry of the list, ignoring case. */
  function Listed(word: string, profanity: seq<string>): (r: bool)
    ensures r <==> exists j :: 0 <= j < |profanity| && Lower(word) == Lower(profanity[j])
  {
    if profanity == [] then false
    else Lower(word) == Lower(profanity[0]) || Listed(word, profanity[1..])
  }

  /** Some word equals some entry of the list, ignoring case. */
  function AnyListed(words: seq<string>, profanity: seq<string>): (r: bool)
    ensures r <==> exists i, j :: 0 <= i < |words| && 0 <= j < |profanity| && Lower(words[i]) == Lower(profanity[j])
  {
    if words == [] then false
    else Listed(words[0], profanity) || AnyListed(words[1..], profanity)
  }

  /** What `profanity_check` answers for a text and a forbidden-word list: whether some
      space-separated word of the text, punctuation removed, equals some list entry,
      ignoring case. */
  function Profane(quote: string, profanity: seq<string>): (r: bool)
    ensures r <==> exists i, j :: 0 <= i < |Words(quote)| && 0 <= j < |profanity|
                                   && Lower(Words(quote)[i]) == Lower(profanity[j])
  {
    AnyListed(Words(quote), profanity)
  }

  /** Replaces each character of `cs` in turn by nothing: what is left is the text without
      the characters of `cs`. */
  method RemoveAll(quote: string, cs: string) returns (temp: string)
    ensures temp == Without(quote, cs)
  {
    temp := quote;
    WithoutNothing(quote);
    var k := 0;
    while k < |cs|
      invariant 0 <= k <= |cs|
      invariant temp == Without(quote, cs[..k])
    {
      RemoveCharWithout(quote, cs[..k], cs[k]);
      assert cs[..k] + [cs[k]] == cs[..k + 1];
      temp := RemoveChar(temp, cs[k]);
      k := k + 1;
    }
    assert cs[..k] == cs;
  }

  /** The source's first loop: each punctuation character in turn is replaced by nothing. */
  method RemovePunctuation(quote: string) returns (temp: string)
    ensures temp == Stripped(quote)
  {
    temp := RemoveAll(quote, PUNCTUATION);
  }

  /** The source's nested loops: compare each word with each list entry, ignoring case,
      and stop at the first match. */
  method AnyWordListed(words: seq<string>, profanity: seq<string>) returns (r: bool)
    ensures r <==> exists i, j :: 0 <= i < |words| && 0 <= j < |profanity|
                                   && Lower(words[i]) == Lower(profanity[j])
  {
    var i := 0;
    while i < |words|
      invariant 0 <= i <= |words|
      invariant forall i', j :: 0 <= i' < i && 0 <= j < |profanity| ==> Lower(words[i']) != Lower(profanity[j])
    {
      var j := 0;
      while j < |profanity|
        invariant 0 <= j <= |profanity|
        invariant forall j' :: 0 <= j' < j ==> Lower(words[i]) != Lower(profanity[j'])
      {
        if Lower(words[i]) == Lower(profanity[j]) {
          return true;
        }
        j := j + 1;
      }
      i := i + 1;
    }
    return false;
  }

  /** `profanity_check(quote)`: strip the punctuation, split on spaces, look for a listed
      word. The list is a parameter here rather than a file the function reads. */
  method ProfanityCheck(quote: string, profanity: seq<string>) returns (r: bool)
    ensures r == Profane(quote, profanity)
  {
    var temp := RemovePunctuation(quote);
    var words := Split(temp, " ");
    assert words == Words(quote);
    r := AnyWordListed(words, profanity);
  }
}
