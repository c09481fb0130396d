/** `processing`: turn the form export into quotes and drop the ones that fail a check,
    with the two filter loops exactly as the source runs them. */
module Processing {
  import opened Wrappers
  import opened PyStr
  import opened Colors
  import opened Profanity

  /** One form submission: `{'text': ..., 'color': ...}`. */
  datatype Quote = Quote(text: string, color: string)

  /** Indexing a record's comma fields past the end raises `IndexError`. */
  datatype ParseError = IndexError

  /** The records of the export: the text split on blank lines, header record dropped. */
  function Records(csv: string): seq<string> {
    Split(csv, "\n\n")[1..]
  }

  /** The comma-separated fields of one record. */
  function Fields(record: string): seq<string> {
    Split(record, ",")
  }

  function Texts(qs: seq<Quote>): seq<string> {
    seq(|qs|, k requires 0 <= k < |qs| => qs[k].text)
  }

  // ---------------------------------------------------------------------------
  // Parsing
  // ---------------------------------------------------------------------------

  /** One quote per record, text from the second field and colour from the third, in record
      order; a record with fewer than three fields makes the whole parse fail. */
  function ParseRecords(records: seq<string>): (r: Result<seq<Quote>, ParseError>)
    ensures r.Ok? <==> forall k :: 0 <= k < |records| ==> |Fields(records[k])| >= 3
    ensures r.Ok? ==>
              && |r.value| == |records|
              && forall k :: 0 <= k < |records| ==>
                   r.value[k] == Quote(Fields(records[k])[1], Fields(records[k])[2])
  {
    if records == [] then Ok([])
    else
      var data := Fields(records[0]);
      if |data| < 3 then Err(IndexError)
      else match ParseRecords(records[1..])
        case Err(e) => Err(e)
        case Ok(rest) => Ok([Quote(data[1], data[2])] + rest)
  }

  function Parse(csv: string): Result<seq<Quote>, ParseError> {
    ParseRecords(Records(csv))
  }

  /** A record has the three fields the parser needs exactly when it holds two commas. */
  lemma RecordWellFormed(record: string)
    ensures |Fields(record)| >= 3 <==> Count(record, ',') >= 2
  {
    SplitCharCount(record, ',');
  }

  /** The parsing loop of `processing`: split into records, drop the header, and build one
      quote per record from its second and third comma fields. */
  method ParseRows(csv: string) returns (r: Result<seq<Quote>, ParseError>)
    ensures r == Parse(csv)
  {
    var rawData := Split(csv, "\n\n");
    rawData := rawData[1..];
    var quotes: seq<Quote> := [];
    var k := 0;
    while k < |rawData|
      invariant 0 <= k <= |rawData|
      invariant forall j :: 0 <= j < k ==> |Fields(rawData[j])| >= 3
      invariant |quotes| == k
      invariant forall j :: 0 <= j < k ==> quotes[j] == Quote(Fields(rawData[j])[1], Fields(rawData[j])[2])
    {
      var data := Split(rawData[k], ",");
      if |data| < 3 {
        assert rawData == Records(csv);
        var expected := ParseRecords(rawData);
        assert !expected.Ok?;
        assert expected.error == IndexError;
        return Err(IndexError);
      }
      quotes := quotes + [Quote(data[1], data[2])];
      k := k + 1;
    }
    assert rawData == Records(csv);
    assert ParseRecords(rawData).value == quotes;
    r := Ok(quotes);
  }

  // ---------------------------------------------------------------------------
  // The filter loops as written
  // ---------------------------------------------------------------------------

  /** What one check makes of a quote: keep it, possibly changed (`Some`), or pop it (`None`). */
  type Verdict = Quote -> Option<Quote>

  /** The colour check: an accepted quote keeps its text and takes the checked colour. */
  function ColorStep(names: map<string, string>): Verdict {
    (q: Quote) => var (ok, color) := ColorCheck(q.color, names); if ok then Some(q.(color := color)) else None
  }

  /** The profanity check: a clean quote stays as it is. */
  function TextStep(profanity: seq<string>): Verdict {
    (q: Quote) => if Profane(q.text, profanity) then None else Some(q)
  }

  /** What a loop `for i, q in enumerate(quotes)` that pops rejected quotes leaves. It walks
      the live list by index, so once slot `i` is popped the quote that slides into slot `i`
      is stepped over, unexamined and unchanged. */
  function PopWalk(qs: seq<Quote>, verdict: Verdict): seq<Quote>
    decreases |qs|
  {
    if qs == [] then []
    else match verdict(qs[0])
      case Some(q) => [q] + PopWalk(qs[1..], verdict)
      case None => if |qs| == 1 then [] else [qs[1]] + PopWalk(qs[2..], verdict)
  }

  function ColorPass(qs: seq<Quote>, names: map<string, string>): seq<Quote> {
    PopWalk(qs, ColorStep(names))
  }

  function ProfanityPass(qs: seq<Quote>, profanity: seq<string>): seq<Quote> {
    PopWalk(qs, TextStep(profanity))
  }

  /** Slot `i` kept: the walk up to slot `i`, then from `i + 1`, is the walk from slot `i`. */
  lemma WalkKept(before: seq<Quote>, verdict: Verdict, i: nat, after: seq<Quote>)
    requires i < |before| && verdict(before[i]).Some?
    requires after == before[i := verdict(before[i]).value]
    ensures after[..i + 1] + PopWalk(after[i + 1..], verdict) == before[..i] + PopWalk(before[i..], verdict)
  {
    var y := after[i];
    var rest := PopWalk(before[i + 1..], verdict);
    assert before[i..][0] == before[i];
    assert before[i..][1..] == before[i + 1..] == after[i + 1..];
    assert PopWalk(before[i..], verdict) == [y] + rest;
    assert after[..i + 1] == before[..i] + [y];
    assert (before[..i] + [y]) + rest == before[..i] + ([y] + rest);
  }

  /** Slot `i` popped: the loop index moves past the quote that slid into slot `i`. */
  lemma WalkPopped(before: seq<Quote>, verdict: Verdict, i: nat, after: seq<Quote>)
    requires i < |before| && verdict(before[i]).None?
    requires after == before[..i] + before[i + 1..]
    ensures i + 1 <= |after| ==> after[..i + 1] + PopWalk(after[i + 1..], verdict) == before[..i] + PopWalk(before[i..], verdict)
    ensures i + 1 > |after| ==> after == before[..i] + PopWalk(before[i..], verdict)
  {
    assert before[i..][0] == before[i];
    if i + 1 < |before| {
      var y := before[i + 1];
      var rest := PopWalk(before[i + 2..], verdict);
      var t := before[..i] + before[i + 1..];
      assert t[i + 1..] == before[i + 1..][1..] == before[i + 2..];
      assert before[i..][1] == y && before[i..][2..] == before[i + 2..];
      assert PopWalk(before[i..], verdict) == [y] + rest;
      assert after[..i + 1] == before[..i] + [y];
      assert (before[..i] + [y]) + rest == before[..i] + ([y] + rest);
    } else {
      assert |before[i..]| == 1;
      assert after == before[..i];
    }
  }

  /** The colour loop's body at slot `i`: after it, the walk still ends where the walk
      from slot `i` would have. */
  method ColorAt(quotes: seq<Quote>, i: nat, names: map<string, string>) returns (after: seq<Quote>)
    requires i < |quotes|
    ensures |quotes| - 1 <= |after| <= |quotes|
    ensures i + 1 <= |after| ==> after[..i + 1] + PopWalk(after[i + 1..], ColorStep(names)) == quotes[..i] + PopWalk(quotes[i..], ColorStep(names))
    ensures i + 1 > |after| ==> after == quotes[..i] + PopWalk(quotes[i..], ColorStep(names))
  {
    var (success, color) := ColorCheck(quotes[i].color, names);
    if success {
      after := quotes[i := quotes[i].(color := color)];
      WalkKept(quotes, ColorStep(names), i, after);
    } else {
      after := quotes[..i] + quotes[i + 1..];
      WalkPopped(quotes, ColorStep(names), i, after);
    }
  }

  /** The profanity loop's body at slot `i`. */
  method ProfanityAt(quotes: seq<Quote>, i: nat, profanity: seq<string>) returns (after: seq<Quote>)
    requires i < |quotes|
    ensures |quotes| - 1 <= |after| <= |quotes|
    ensures i + 1 <= |after| ==> after[..i + 1] + PopWalk(after[i + 1..], TextStep(profanity)) == quotes[..i] + PopWalk(quotes[i..], TextStep(profanity))
    ensures i + 1 > |after| ==> after == quotes[..i] + PopWalk(quotes[i..], TextStep(profanity))
  {
    var profane := ProfanityCheck(quotes[i].text, profanity);
    if profane {
      after := quotes[..i] + quotes[i + 1..];
      WalkPopped(quotes, TextStep(profanity), i, after);
    } else {
      after := quotes;
      WalkKept(quotes, TextStep(profanity), i, after);
    }
  }

  /** The colour loop of `processing`: `for i, q in enumerate(quotes)`, replacing an accepted
      colour in place and `quotes.pop(i)` on a rejected one. */
  method ColorLoop(input: seq<Quote>, names: map<string, string>) returns (quotes: seq<Quote>)
    ensures quotes == ColorPass(input, names)
  {
    quotes := input;
    var i := 0;
    while i < |quotes|
      invariant 0 <= i <= |quotes| + 1
      invariant i <= |quotes| ==> quotes[..i] + PopWalk(quotes[i..], ColorStep(names)) == ColorPass(input, names)
      invariant i == |quotes| + 1 ==> quotes == ColorPass(input, names)
      decreases |quotes| + 1 - i
    {
      quotes := ColorAt(quotes, i, names);
      i := i + 1;
    }
    if i == |quotes| {
      assert quotes[i..] == [];
      assert quotes[..i] == quotes;
    }
  }

  /** The profanity loop of `processing`: `quotes.pop(i)` on a profane text. */
  method ProfanityLoop(input: seq<Quote>, profanity: seq<string>) returns (quotes: seq<Quote>)
    ensures quotes == ProfanityPass(input, profanity)
  {
    quotes := input;
    var i := 0;
    while i < |quotes|
      invariant 0 <= i <= |quotes| + 1
      invariant i <= |quotes| ==> quotes[..i] + PopWalk(quotes[i..], TextStep(profanity)) == ProfanityPass(input, profanity)
      invariant i == |quotes| + 1 ==> quotes == ProfanityPass(input, profanity)
      decreases |quotes| + 1 - i
    {
      quotes := ProfanityAt(quotes, i, profanity);
      i := i + 1;
    }
    if i == |quotes| {
      assert quotes[i..] == [];
      assert quotes[..i] == quotes;
    }
  }

  /** `processing()`: parse the export (the text is a parameter rather than a file read),
      run the colour loop, then the profanity loop. */
  method ProcessForm(csv: string, names: map<string, string>, profanity: seq<string>)
    returns (r: Result<seq<Quote>, ParseError>)
    ensures Parse(csv).Err? ==> r == Err(IndexError)
    ensures Parse(csv).Ok? ==> r == Ok(ProfanityPass(ColorPass(Parse(csv).value, names), profanity))
  {
    var parsed := ParseRows(csv);
    if parsed.Err? {
      return Err(IndexError);
    }
    var quotes := ColorLoop(parsed.value, names);
    quotes := ProfanityLoop(quotes, profanity);
    r := Ok(quotes);
  }

  // ---------------------------------------------------------------------------
  // What the walk keeps
  // ---------------------------------------------------------------------------

  /** `a` is `b` with some elements left out, the rest in the same order. */
  predicate IsSubseq<T(==)>(a: seq<T>, b: seq<T>)
    decreases |b|
  {
    if a == [] then true
    else if b == [] then false
    else (a[0] == b[0] && IsSubseq(a[1..], b[1..])) || IsSubseq(a, b[1..])
  }

  lemma {:induction false} SubseqLength<T>(a: seq<T>, b: seq<T>)
    requires IsSubseq(a, b)
    ensures |a| <= |b|
    decreases |b|
  {
    if a != [] {
      if a[0] == b[0] && IsSubseq(a[1..], b[1..]) {
        SubseqLength(a[1..], b[1..]);
      } else {
        SubseqLength(a, b[1..]);
      }
    }
  }

  lemma {:induction false} SubseqTrans<T>(a: seq<T>, b: seq<T>, c: seq<T>)
    requires IsSubseq(a, b) && IsSubseq(b, c)
    ensures IsSubseq(a, c)
    decreases |c|
  {
    if a != [] {
      if b[0] == c[0] && IsSubseq(b[1..], c[1..]) {
        if a[0] == b[0] && IsSubseq(a[1..], b[1..]) {
          SubseqTrans(a[1..], b[1..], c[1..]);
        } else {
          SubseqTrans(a, b[1..], c[1..]);
        }
      } else {
        SubseqTrans(a, b, c[1..]);
      }
    }
  }

  /** A check that never changes a quote's text. */
  ghost predicate KeepsText(verdict: Verdict) {
    forall q :: verdict(q).Some? ==> verdict(q).value.text == q.text
  }

  lemma StepsKeepText(names: map<string, string>, profanity: seq<string>)
    ensures KeepsText(ColorStep(names)) && KeepsText(TextStep(profanity))
  {
  }

  lemma TextsCons(q: Quote, qs: seq<Quote>)
    ensures Texts([q] + qs) == [q.text] + Texts(qs)
  {
  }

  /** The walk keeps texts in order and never adds one: its texts are a subsequence of the
      input's. */
  lemma {:induction false} WalkTextsSubseq(qs: seq<Quote>, verdict: Verdict)
    requires KeepsText(verdict)
    ensures IsSubseq(Texts(PopWalk(qs, verdict)), Texts(qs))
    decreases |qs|
  {
    if qs != [] {
      assert Texts(qs)[1..] == Texts(qs[1..]);
      match verdict(qs[0])
      case Some(q) =>
        WalkTextsSubseq(qs[1..], verdict);
        TextsCons(q, PopWalk(qs[1..], verdict));
      case None =>
        if |qs| > 1 {
          WalkTextsSubseq(qs[2..], verdict);
          TextsCons(qs[1], PopWalk(qs[2..], verdict));
          assert Texts(qs[1..])[1..] == Texts(qs[2..]);
          assert IsSubseq(Texts(PopWalk(qs, verdict)), Texts(qs[1..]));
        }
    }
  }

  /** After both loops, the texts left are a subsequence of the parsed texts, so there are
      never more quotes than were parsed. */
  lemma ProcessingKeepsOrder(qs: seq<Quote>, names: map<string, string>, profanity: seq<string>)
    ensures IsSubseq(Texts(ProfanityPass(ColorPass(qs, names), profanity)), Texts(qs))
    ensures |ProfanityPass(ColorPass(qs, names), profanity)| <= |qs|
  {
    StepsKeepText(names, profanity);
    var mid := ColorPass(qs, names);
    var out := ProfanityPass(mid, profanity);
    WalkTextsSubseq(qs, ColorStep(names));
    WalkTextsSubseq(mid, TextStep(profanity));
    SubseqTrans(Texts(out), Texts(mid), Texts(qs));
    SubseqLength(Texts(out), Texts(qs));
  }

  /** Where an element `o` of the walk's result comes from: the quote at slot `j`, examined
      and kept, as the check left it; or the quote at slot `j`, unchanged, directly after a
      quote the check rejects. */
  predicate FromSlot(qs: seq<Quote>, verdict: Verdict, o: Quote, j: int) {
    && 0 <= j < |qs|
    && ((verdict(qs[j]).Some? && o == verdict(qs[j]).value)
        || (0 < j && verdict(qs[j - 1]).None? && o == qs[j]))
  }

  lemma FromSlotShift(qs: seq<Quote>, verdict: Verdict, o: Quote, j: nat, d: nat)
    requires d <= |qs| && FromSlot(qs[d..], verdict, o, j)
    ensures FromSlot(qs, verdict, o, j + d)
  {
    assert qs[d..][j] == qs[j + d];
    if 0 < j {
      assert qs[d..][j - 1] == qs[j + d - 1];
    }
  }

  ghost predicate HasOrigin(qs: seq<Quote>, verdict: Verdict, o: Quote) {
    exists j :: FromSlot(qs, verdict, o, j)
  }

  /** Every quote the walk leaves either passed the check at its slot and is what the check
      made of it, or is the unchanged quote of its slot, directly after a quote the check
      rejects. */
  lemma {:induction false} WalkOrigins(qs: seq<Quote>, verdict: Verdict)
    ensures forall k :: 0 <= k < |PopWalk(qs, verdict)| ==> HasOrigin(qs, verdict, PopWalk(qs, verdict)[k])
    decreases |qs|
  {
    if qs != [] {
      var out := PopWalk(qs, verdict);
      var d := if verdict(qs[0]).Some? then 1 else 2;
      if d <= |qs| {
        var rest := PopWalk(qs[d..], verdict);
        WalkOrigins(qs[d..], verdict);
        assert out == [out[0]] + rest;
        forall k | 0 <= k < |out| ensures HasOrigin(qs, verdict, out[k]) {
          if k == 0 {
            assert FromSlot(qs, verdict, out[0], d - 1);
          } else {
            assert out[k] == rest[k - 1];
            assert HasOrigin(qs[d..], verdict, rest[k - 1]);
            var j :| FromSlot(qs[d..], verdict, rest[k - 1], j);
            FromSlotShift(qs, verdict, out[k], j, d);
          }
        }
      } else {
        assert out == [];
      }
    }
  }

  // ---------------------------------------------------------------------------
  // The filters as intended
  // ---------------------------------------------------------------------------

  /** Every quote examined; the kept ones, as the check leaves them, in order. */
  function Checked(qs: seq<Quote>, verdict: Verdict): seq<Quote>
    decreases |qs|
  {
    if qs == [] then []
    else (match verdict(qs[0]) case Some(q) => [q] case None => []) + Checked(qs[1..], verdict)
  }

  /** Exactly what the check keeps is in the result. */
  lemma {:induction false} CheckedExact(qs: seq<Quote>, verdict: Verdict)
    ensures forall o :: o in Checked(qs, verdict) <==> exists j :: 0 <= j < |qs| && verdict(qs[j]) == Some(o)
    decreases |qs|
  {
    if qs != [] {
      CheckedExact(qs[1..], verdict);
      forall o | (exists j :: 0 <= j < |qs| && verdict(qs[j]) == Some(o))
        ensures o in Checked(qs, verdict)
      {
        var j :| 0 <= j < |qs| && verdict(qs[j]) == Some(o);
        if j > 0 {
          assert qs[1..][j - 1] == qs[j];
        }
      }
      forall o | o in Checked(qs[1..], verdict)
        ensures exists j :: 0 <= j < |qs| && verdict(qs[j]) == Some(o)
      {
        var j :| 0 <= j < |qs[1..]| && verdict(qs[1..][j]) == Some(o);
        assert qs[1..][j] == qs[j + 1];
      }
    }
  }

  /** `processing` as intended: every quote gets both checks, and exactly the quotes that
      pass both are left, with their checked colours. */
  function IntendedProcessing(qs: seq<Quote>, names: map<string, string>, profanity: seq<string>): seq<Quote> {
    Checked(Checked(qs, ColorStep(names)), TextStep(profanity))
  }

  /** Over a table of `#rrggbb` colours, every colour the intended colour filter leaves is one. */
  lemma CheckedColorsHex(qs: seq<Quote>, names: map<string, string>)
    requires HexTable(names)
    ensures forall o :: o in Checked(qs, ColorStep(names)) ==> IsHexColor(o.color)
  {
    CheckedExact(qs, ColorStep(names));
    forall o | o in Checked(qs, ColorStep(names))
      ensures IsHexColor(o.color)
    {
      var j :| 0 <= j < |qs| && ColorStep(names)(qs[j]) == Some(o);
      AcceptedIsHex(qs[j].color, names);
    }
  }

  /** The intended profanity filter leaves only quotes of its input, none of them profane. */
  lemma CheckedTextsClean(qs: seq<Quote>, profanity: seq<string>)
    ensures forall o :: o in Checked(qs, TextStep(profanity)) ==> o in qs && !Profane(o.text, profanity)
  {
    CheckedExact(qs, TextStep(profanity));
    forall o | o in Checked(qs, TextStep(profanity))
      ensures o in qs && !Profane(o.text, profanity)
    {
      var j :| 0 <= j < |qs| && TextStep(profanity)(qs[j]) == Some(o);
    }
  }

  /** What the intended filters leave is clean: every colour is a `#rrggbb` colour (given a
      table of such colours) and no text is profane. */
  lemma IntendedIsValid(qs: seq<Quote>, names: map<string, string>, profanity: seq<string>)
    requires HexTable(names)
    ensures forall o :: o in IntendedProcessing(qs, names, profanity) ==>
              IsHexColor(o.color) && !Profane(o.text, profanity)
  {
    CheckedColorsHex(qs, names);
    CheckedTextsClean(Checked(qs, ColorStep(names)), profanity);
  }

  /** Nothing that passes both checks is lost by the intended filters: it is left, with its
      checked colour. */
  lemma IntendedKeepsPassing(qs: seq<Quote>, names: map<string, string>, profanity: seq<string>, j: nat)
    requires j < |qs|
    requires ColorCheck(qs[j].color, names).0
    requires !Profane(qs[j].text, profanity)
    ensures qs[j].(color := ColorCheck(qs[j].color, names).1) in IntendedProcessing(qs, names, profanity)
  {
    var mid := Checked(qs, ColorStep(names));
    var o := qs[j].(color := ColorCheck(qs[j].color, names).1);
    CheckedExact(qs, ColorStep(names));
    assert ColorStep(names)(qs[j]) == Some(o);
    assert o in mid;
    var i :| 0 <= i < |mid| && mid[i] == o;
    assert TextStep(profanity)(mid[i]) == Some(o);
    CheckedExact(mid, TextStep(profanity));
  }

  /** Slot `i` kept by the intended loop: the kept prefix grows by the checked quote. */
  lemma CheckedKept(before: seq<Quote>, verdict: Verdict, i: nat, after: seq<Quote>)
    requires i < |before| && verdict(before[i]).Some?
    requires after == before[i := verdict(before[i]).value]
    ensures after[..i + 1] + Checked(after[i + 1..], verdict) == before[..i] + Checked(before[i..], verdict)
  {
    var y := after[i];
    var rest := Checked(before[i + 1..], verdict);
    assert before[i..][0] == before[i];
    assert before[i..][1..] == before[i + 1..] == after[i + 1..];
    assert Checked(before[i..], verdict) == [y] + rest;
    assert after[..i + 1] == before[..i] + [y];
    assert (before[..i] + [y]) + rest == before[..i] + ([y] + rest);
  }

  /** Slot `i` popped by the intended loop: the next quote is examined at the same index. */
  lemma CheckedPopped(before: seq<Quote>, verdict: Verdict, i: nat, after: seq<Quote>)
    requires i < |before| && verdict(before[i]).None?
    requires after == before[..i] + before[i + 1..]
    ensures after[..i] + Checked(after[i..], verdict) == before[..i] + Checked(before[i..], verdict)
  {
    assert before[i..][0] == before[i];
    assert before[i..][1..] == before[i + 1..] == after[i..];
    assert after[..i] == before[..i];
    assert Checked(before[i..], verdict) == [] + Checked(before[i + 1..], verdict);
  }

  /** The filter loop as evidently intended: a quote is popped without advancing the index,
      so the quote that slides into the slot is examined next. */
  method FilterInPlace(input: seq<Quote>, verdict: Verdict) returns (quotes: seq<Quote>)
    ensures quotes == Checked(input, verdict)
  {
    quotes := input;
    var i := 0;
    while i < |quotes|
      invariant 0 <= i <= |quotes|
      invariant quotes[..i] + Checked(quotes[i..], verdict) == Checked(input, verdict)
      decreases |quotes| - i
    {
      ghost var before := quotes;
      match verdict(quotes[i])
      case Some(q) =>
        quotes := quotes[i := q];
        CheckedKept(before, verdict, i, quotes);
        i := i + 1;
      case None =>
        quotes := quotes[..i] + quotes[i + 1..];
        CheckedPopped(before, verdict, i, quotes);
    }
    assert quotes[i..] == [];
    assert quotes[..i] == quotes;
  }

  /** `processing` with both loops corrected: every colour left is `#rrggbb` (over a table
      of such colours) and no text left is profane. */
  method ProcessFormIntended(csv: string, names: map<string, string>, profanity: seq<string>)
    returns (r: Result<seq<Quote>, ParseError>)
    ensures Parse(csv).Err? ==> r == Err(IndexError)
    ensures Parse(csv).Ok? ==> r == Ok(IntendedProcessing(Parse(csv).value, names, profanity))
    ensures r.Ok? && HexTable(names) ==>
              forall o :: o in r.value ==> IsHexColor(o.color) && !Profane(o.text, profanity)
  {
    var parsed := ParseRows(csv);
    if parsed.Err? {
      return Err(IndexError);
    }
    var quotes := FilterInPlace(parsed.value, ColorStep(names));
    quotes := FilterInPlace(quotes, TextStep(profanity));
    if HexTable(names) {
      IntendedIsValid(parsed.value, names, profanity);
    }
    r := Ok(quotes);
  }

  // ---------------------------------------------------------------------------
  // The skipped quote, concretely
  // ---------------------------------------------------------------------------

  /** Two quotes with an empty colour field: the colour loop pops the first, steps over the
      second, and the second survives with its unchecked colour; the intended filter drops
      both. */
  lemma ColorSkipExample()
    ensures !ColorCheck("", map[]).0
    ensures ColorPass([Quote("a", ""), Quote("b", "")], map[]) == [Quote("b", "")]
    ensures Checked([Quote("a", ""), Quote("b", "")], ColorStep(map[])) == []
  {
    RejectsBlank("", map[]);
    var qs := [Quote("a", ""), Quote("b", "")];
    var v := ColorStep(map[]);
    assert v(qs[0]) == None && v(qs[1]) == None;
    assert qs[2..] == [];
    assert PopWalk(qs, v) == [qs[1]];
    assert qs[1..][1..] == [];
    assert Checked(qs[1..], v) == [];
  }

  /** No lower-case letter is one of the punctuation characters the profanity check strips. */
  lemma LowerNotPunctuation(c: char)
    requires 'a' <= c <= 'z'
    ensures c !in PUNCTUATION
  {
  }

  lemma StrippedBad()
    ensures Stripped("bad") == "bad"
  {
    LowerNotPunctuation('a');
    LowerNotPunctuation('b');
    LowerNotPunctuation('d');
    assert "bad"[1..] == "ad" && "ad"[1..] == "d" && "d"[1..] == [];
  }

  lemma SplitBad()
    ensures Split("bad", " ") == ["bad"]
  {
    assert "bad"[0..1] == "b" && "bad"[1..2] == "a" && "bad"[2..3] == "d";
    assert !OccursAt("bad", " ", 0) && !OccursAt("bad", " ", 1) && !OccursAt("bad", " ", 2);
    assert FindFrom("bad", " ", 0).None?;
  }

  /** "bad" is profane for the list ["bad"]. */
  lemma BadIsProfane()
    ensures Profane("bad", ["bad"])
  {
    StrippedBad();
    SplitBad();
    assert Words("bad")[0] == "bad";
  }

  /** The same text twice, profane: the profanity loop pops the first copy, steps over the
      second, and the second survives; the intended filter drops both. */
  lemma ProfanitySkipExample()
    ensures Profane("bad", ["bad"])
    ensures ProfanityPass([Quote("bad", "#000000"), Quote("bad", "#000000")], ["bad"]) == [Quote("bad", "#000000")]
    ensures Checked([Quote("bad", "#000000"), Quote("bad", "#000000")], TextStep(["bad"])) == []
  {
    BadIsProfane();
    var qs := [Quote("bad", "#000000"), Quote("bad", "#000000")];
    assert TextStep(["bad"])(qs[0]) == None;
    assert qs[2..] == [] && qs[1..][1..] == [];
  }
}
