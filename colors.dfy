/** `color_check`: normalise the colour field of a form submission. */
module Colors {
  import opened PyStr

  /** The hex form the colour library's `hex_to_rgb` accepts without raising:
      `#` followed by three or six hexadecimal digits. */
  predicate HexDecodes(s: string) {
    && (|s| == 4 || |s| == 7) && s[0] == '#'
    && forall i :: 1 <= i < |s| ==> IsHexDigit(s[i])
  }

  /** A six-digit hexadecimal colour, `#rrggbb`. */
  predicate IsHexColor(s: string) {
    |s| == 7 && s[0] == '#' && forall i :: 1 <= i < 7 ==> IsHexDigit(s[i])
  }

  /** `color_check(data)`. `names` stands for the colour library's name table, keyed by
      lower-case colour name (`name_to_hex` lower-cases the name before looking it up).
      The result is the source's `(success, colour)` pair. */
  function ColorCheck(data: string, names: map<string, string>): (r: (bool, string))
    ensures !r.0 ==> r.1 == ""
    ensures IsAlpha(Strip(data)) ==>
              && (r.0 <==> Lower(Strip(data)) in names)
              && (r.0 ==> r.1 == names[Lower(Strip(data))])
    ensures !IsAlpha(Strip(data)) ==>
              && (r.0 <==> IsHexColor(Strip(data)))
              && (r.0 ==> r.1 == Strip(data))
  {
    var t := Strip(data);
    if IsAlpha(t) then
      if Lower(t) in names then (true, names[Lower(t)]) else (false, "")
    else if IsAlnum(Tail(t)) && t[0] == '#' && |t| == 7 then
      if HexDecodes(t) then (true, t) else (false, "")
    else
      (false, "")
  }

  /** Empty and whitespace-only input is rejected, whatever the table holds. */
  lemma RejectsBlank(data: string, names: map<string, string>)
    requires forall i :: 0 <= i < |data| ==> IsSpace(data[i])
    ensures ColorCheck(data, names) == (false, "")
  {
    StripBlank(data);
  }

  /** Every table whose values are all `#rrggbb` colours. */
  predicate HexTable(names: map<string, string>) {
    forall n :: n in names ==> IsHexColor(names[n])
  }

  /** Over such a table, every colour `color_check` accepts is a `#rrggbb` colour. */
  lemma AcceptedIsHex(data: string, names: map<string, string>)
    requires HexTable(names)
    requires ColorCheck(data, names).0
    ensures IsHexColor(ColorCheck(data, names).1)
  {
  }

  /** A `#rrggbb` colour passes `color_check` unchanged. */
  lemma HexColorAccepted(s: string, names: map<string, string>)
    requires IsHexColor(s)
    ensures ColorCheck(s, names) == (true, s)
  {
    StripTrimmed(s);
    assert !IsLetter(s[0]);
  }

  /** The shape test alone does not decide: a value that is `#` and six letters or digits,
      one of them not hexadecimal, passes the shape test and is still rejected. */
  lemma ShapeIsNotEnough(s: string, names: map<string, string>, k: nat)
    requires |s| == 7 && s[0] == '#' && IsAlnum(Tail(s))
    requires 1 <= k < 7 && !IsHexDigit(s[k])
    ensures ColorCheck(s, names) == (false, "")
  {
    assert IsLetter(s[6]) || IsDigit(s[6]);
    StripTrimmed(s);
    assert !IsLetter(s[0]);
    assert !IsHexColor(s);
  }

  /** Normalising twice is normalising once: feeding an accepted result back in gives
      the same result. */
  lemma Idempotent(data: string, names: map<string, string>)
    requires HexTable(names)
    requires ColorCheck(data, names).0
    ensures ColorCheck(ColorCheck(data, names).1, names) == ColorCheck(data, names)
  {
    AcceptedIsHex(data, names);
    HexColorAccepted(ColorCheck(data, names).1, names);
  }

  /** An alphabetic value is looked up in the table, ignoring case. */
  lemma AlphaLookedUp(s: string, names: map<string, string>)
    requires IsAlpha(s)
    ensures ColorCheck(s, names)
            == if Lower(s) in names then (true, names[Lower(s)]) else (false, "")
  {
    assert !IsSpace(s[0]) && !IsSpace(s[|s| - 1]);
    StripTrimmed(s);
  }

  lemma GreenLowerCase()
    ensures IsAlpha("green") && Lower("green") == "green"
  {
    var g := "green";
    assert forall i :: 0 <= i < |g| ==> 'a' <= g[i] <= 'z';
  }

  /** A colour name is looked up in the table. */
  lemma NamedExample()
    ensures ColorCheck("green", map["green" := "#008000"]) == (true, "#008000")
  {
    GreenLowerCase();
    AlphaLookedUp("green", map["green" := "#008000"]);
  }
}
