/** Brazilian CNJ legal-process numbers, written `NNNNNNN-DD.AAAA.J.TR.OOOO`:
    a sequential number, two check digits, the filing year, the justice
    segment, the court and the forum. This module holds the symbol sieve, the
    mod-97 checksum, validation of the display form, the 7-2-4-1-2-4 layout
    and the generator of `brutils/legal_process.py`. */
module LegalProcess {
  import opened Decimal
  import opened Chars

  datatype Option<T> = None | Some(value: T)

  /** How a call ends: with a value, or by raising an exception (the
      `AttributeError` of `match.group` on no match, or the `ValueError` of
      `int('')`). */
  datatype Outcome<T> = Returned(value: T) | Raised

  /** A value handed to `is_valid`: Python text, or a value of another type. */
  datatype Value = Text(text: string) | Integer(number: int) | NoneValue

  // ---------------------------------------------------------------------
  // Symbol sieve

  /** The characters the pattern `[\w\s\-.]` admits. */
  predicate IsFormatChar(c: char) { IsWordOrSpace(c) || c == '-' || c == '.' }

  predicate IsStray(c: char) { !IsFormatChar(c) }

  /** `re.findall(r"[^\w\s\-.]", dirty)`: only stray characters come out,
      and nothing does exactly when every character of `dirty` is a word
      character, whitespace, '-' or '.'. */
  function Sieve(dirty: string): (stray: string)
    ensures forall k :: 0 <= k < |stray| ==> IsStray(stray[k])
    ensures stray == [] <==> forall k :: 0 <= k < |dirty| ==> IsFormatChar(dirty[k])
  {
    FilterEmptyIff(dirty, IsStray);
    Filter(dirty, IsStray)
  }

  /** Every stray character of `dirty` comes out as often as it occurs. */
  lemma SieveKeepsDuplicates(dirty: string)
    ensures forall c :: IsStray(c) ==> multiset(Sieve(dirty))[c] == multiset(dirty)[c]
  {
    FilterCounts(dirty, IsStray);
  }

  /** The sieve keeps the order of the input: around any character it splits. */
  lemma SieveKeepsOrder(before: string, c: char, after: string)
    ensures Sieve(before + [c] + after)
         == Sieve(before) + (if IsStray(c) then [c] else []) + Sieve(after)
  {
    FilterConcat(before + [c], after, IsStray);
    FilterConcat(before, [c], IsStray);
    assert Filter([c], IsStray) == (if IsStray(c) then [c] else []) + Filter([], IsStray);
  }

  /** `remove_symbols` is an alias of `sieve`. */
  function RemoveSymbols(dirty: string): (stray: string)
    ensures stray == Sieve(dirty)
  {
    Sieve(dirty)
  }

  // ---------------------------------------------------------------------
  // Checksum

  /** The relation the check digits DD keep with the basis value: two
      digits, a value in 1..97, and basis * 100 + DD divisible by 97. */
  predicate CheckDigitsHold(basis: int, dd: string)
  {
    |dd| == 2 && AllDigits(dd) && 1 <= ValueOf(dd) <= 97
    && (basis * 100 + ValueOf(dd)) % 97 == 0
  }

  lemma ModComplement(m: int)
    ensures (m + (97 - m % 97)) % 97 == 0
  {
  }

  /** `_checksum`: `str(97 - basis * 100 % 97).zfill(2)`. Python's `%`
      with the positive modulus 97 never gives a negative remainder, like
      Dafny's, so negative integers are covered too. */
  function Checksum(basis: int): (dd: string)
    ensures CheckDigitsHold(basis, dd)
  {
    var v := 97 - (basis * 100) % 97;
    assert Pow10(2) == 100;
    ShowLength(v, 2);
    ZFillValue(Show(v), 2);
    ModComplement(basis * 100);
    ZFill(Show(v), 2)
  }

  lemma SameResidue(m: int, x: nat, y: nat)
    requires 1 <= x <= 97 && 1 <= y <= 97
    requires (m + x) % 97 == 0 && (m + y) % 97 == 0
    ensures x == y
  {
    var a, b := (m + x) / 97, (m + y) / 97;
    assert m + x == 97 * a && m + y == 97 * b;
  }

  /** The checksum is the only text that keeps the mod-97 relation. */
  lemma ChecksumCharacterization(basis: int, dd: string)
    ensures dd == Checksum(basis) <==> CheckDigitsHold(basis, dd)
  {
    if CheckDigitsHold(basis, dd) {
      CheckDigitsUnique(basis, dd, Checksum(basis));
    }
  }

  /** At most one two-digit text keeps the relation with a given basis. */
  lemma CheckDigitsUnique(basis: int, x: string, y: string)
    requires CheckDigitsHold(basis, x) && CheckDigitsHold(basis, y)
    ensures x == y
  {
    SameResidue(basis * 100, ValueOf(x), ValueOf(y));
    ValueOfInjective(x, y);
  }

  /** `_checksum` on a Python value: an integer gives its check digits;
      text and None raise `TypeError`. Text times 100 is the text repeated,
      and `%` on text with an integer is string formatting: text holding no
      conversion, such as a numeral, leaves the 97 unconverted. */
  function ChecksumOf(basenum: Value): (r: Outcome<string>)
    ensures r.Raised? <==> !basenum.Integer?
    ensures r.Returned? ==> CheckDigitsHold(basenum.number, r.value)
  {
    if basenum.Integer? then Returned(Checksum(basenum.number)) else Raised
  }

  // ---------------------------------------------------------------------
  // Validation of the display form

  /** The texts `validate` reads: digits and the separators '-' and '.'. */
  predicate InAlphabet(s: string)
  {
    forall k :: 0 <= k < |s| ==> IsDigit(s[k]) || s[k] == '-' || s[k] == '.'
  }

  /** What ends the lazy `.*?` of `-(.*?)\.`: the '.' it stops at, or a
      line feed, which `.` does not match. */
  predicate EndsLazyRun(c: char) { c == '.' || c == '\n' }

  /** The first position at or after `from` that ends the lazy run, or `|s|`. */
  function StopOf(s: string, from: nat): (k: nat)
    requires from <= |s|
    ensures from <= k <= |s|
    ensures k < |s| ==> EndsLazyRun(s[k])
    ensures forall m :: from <= m < k ==> !EndsLazyRun(s[m])
    decreases |s| - from
  {
    if from == |s| then |s|
    else if EndsLazyRun(s[from]) then from
    else StopOf(s, from + 1)
  }

  lemma StopOfFirst(s: string, from: nat, k: nat)
    requires from <= k < |s| && EndsLazyRun(s[k])
    requires forall m :: from <= m < k ==> !EndsLazyRun(s[m])
    ensures StopOf(s, from) == k
  {
  }

  /** `-(.*?)\.` matches at `i`: a '-' there, and the first '.' or line
      feed after it is a '.'. */
  predicate MatchesAt(s: string, i: nat)
  {
    i < |s| && s[i] == '-' && StopOf(s, i + 1) < |s| && s[StopOf(s, i + 1)] == '.'
  }

  /** Where `re.search` finds its match: the leftmost position at or after
      `from` at which the pattern matches, or `|s|` if there is none. */
  function MatchStart(s: string, from: nat): (i: nat)
    requires from <= |s|
    ensures from <= i <= |s|
    ensures i < |s| ==> MatchesAt(s, i)
    ensures forall m :: from <= m < i ==> !MatchesAt(s, m)
    decreases |s| - from
  {
    if from == |s| then |s|
    else if MatchesAt(s, from) then from
    else MatchStart(s, from + 1)
  }

  lemma MatchStartFirst(s: string, from: nat, k: nat)
    requires from <= k < |s| && MatchesAt(s, k)
    requires forall m :: from <= m < k ==> !MatchesAt(s, m)
    ensures MatchStart(s, from) == k
    decreases k - from
  {
    if from < k {
      MatchStartFirst(s, from + 1, k);
    }
  }

  /** Whether `re.search(r"-(.*?)\.", s)` finds a match: some '-' has a '.'
      after it with no line feed in between. */
  predicate HasCheckField(s: string)
    ensures HasCheckField(s) <==>
      exists i, j :: 0 <= i < j < |s| && s[i] == '-' && s[j] == '.'
        && forall m :: i < m < j ==> s[m] != '\n'
  {
    DashThenDot(s);
    MatchStart(s, 0) < |s|
  }

  lemma DashThenDot(s: string)
    ensures MatchStart(s, 0) < |s| <==>
      exists i, j :: 0 <= i < j < |s| && s[i] == '-' && s[j] == '.'
        && forall m :: i < m < j ==> s[m] != '\n'
  {
    if exists i, j :: 0 <= i < j < |s| && s[i] == '-' && s[j] == '.'
         && forall m :: i < m < j ==> s[m] != '\n'
    {
      var i, j :| 0 <= i < j < |s| && s[i] == '-' && s[j] == '.'
        && forall m :: i < m < j ==> s[m] != '\n';
      var k := StopOf(s, i + 1);
      assert k <= j;
      assert s[k] == '.';
      assert MatchesAt(s, i);
    }
    var i := MatchStart(s, 0);
    if i < |s| {
      var j := StopOf(s, i + 1);
      assert s[i] == '-' && s[j] == '.';
      assert forall m :: i < m < j ==> s[m] != '\n';
    }
  }

  /** `match.group(1)`: the text between the '-' where the match starts and
      the next '.'. The lazy `.*?` stops at the first '.', and `.` matches
      no line feed, so the field holds neither. */
  function CheckField(s: string): (dd: string)
    requires HasCheckField(s)
    ensures forall k :: 0 <= k < |dd| ==> dd[k] != '.' && dd[k] != '\n'
    ensures var i := MatchStart(s, 0);
      i + |dd| + 1 < |s| && s[i] == '-'
      && s[i + 1..i + 1 + |dd|] == dd && s[i + 1 + |dd|] == '.'
  {
    var i := MatchStart(s, 0);
    s[i + 1..StopOf(s, i + 1)]
  }

  /** Worked values of the search around line feeds: a line feed between
      the '-' and the '.' stops that match, and the search moves on to a
      later '-'. */
  lemma LineFeedExamples()
    ensures !HasCheckField("-\n.")
    ensures HasCheckField("-\n-5.") && CheckField("-\n-5.") == "5"
  {
    var bare, later := "-\n.", "-\n-5.";
    assert StopOf(bare, 1) == 1;
    assert !MatchesAt(bare, 0);
    assert StopOf(later, 1) == 1 && StopOf(later, 3) == 4;
    assert MatchesAt(later, 2);
    MatchStartFirst(later, 0, 2);
  }

  /** `re.sub(r"-(.*?)\.", "", s, 1)`: the text with that match cut out.
      Putting `-`, the check field and `.` back where the match started
      gives the text again. */
  function Remainder(s: string): (rest: string)
    requires HasCheckField(s)
    ensures var i := MatchStart(s, 0);
      i <= |rest| && rest[..i] + "-" + CheckField(s) + "." + rest[i..] == s
  {
    var i := MatchStart(s, 0);
    var dot := StopOf(s, i + 1);
    CutOut(s, i, dot);
    s[..i] + s[dot + 1..]
  }

  /** Cutting `s[i..dot + 1]` out of `s` and putting it back gives `s`. */
  lemma CutOut(s: string, i: nat, dot: nat)
    requires i < dot < |s|
    ensures var rest := s[..i] + s[dot + 1..];
      i <= |rest| && rest[..i] + [s[i]] + s[i + 1..dot] + [s[dot]] + rest[i..] == s
  {
    var rest := s[..i] + s[dot + 1..];
    assert rest[..i] == s[..i] && rest[i..] == s[dot + 1..];
    assert s == s[..i] + [s[i]] + s[i + 1..dot] + [s[dot]] + s[dot + 1..];
  }

  /** `re.sub(r"[^\w\s]", "", t)`: only word characters and whitespace stay. */
  function Scrub(t: string): (r: string)
    ensures |r| <= |t|
    ensures forall k :: 0 <= k < |r| ==> IsWordOrSpace(r[k])
  {
    Filter(t, IsWordOrSpace)
  }

  lemma {:induction false} ScrubProcessText(t: string)
    requires InAlphabet(t)
    ensures Scrub(t) == Filter(t, IsDigit)
    decreases |t|
  {
    if t != [] {
      ScrubProcessText(t[1..]);
    }
  }

  /** The digits whose integer value is the checksum basis. */
  function BasisDigits(s: string): (digits: string)
    requires InAlphabet(s) && HasCheckField(s)
    ensures AllDigits(digits)
    ensures digits == Filter(Remainder(s), IsDigit)
  {
    ScrubProcessText(Remainder(s));
    Scrub(Remainder(s))
  }

  /** What `validate` needs in order not to fail: a '-' followed later by a
      '.' (otherwise `match` is None), and digits left for `int()`. */
  predicate CanValidate(s: string)
    ensures CanValidate(s) <==>
      (InAlphabet(s) && HasCheckField(s)
       && exists k :: 0 <= k < |Remainder(s)| && IsDigit(Remainder(s)[k]))
  {
    if InAlphabet(s) && HasCheckField(s) then
      ScrubProcessText(Remainder(s));
      FilterEmptyIff(Remainder(s), IsDigit);
      BasisDigits(s) != []
    else false
  }

  /** `validate` on a text of digits, '-' and '.': it raises when there is
      no check field or no digit outside it, and otherwise tells whether the
      check field, compared as text, is the checksum of the other digits. */
  function Validate(s: string): (r: Outcome<bool>)
    requires InAlphabet(s)
    ensures r.Raised? <==> !CanValidate(s)
    ensures r.Returned? ==> (r.value <==> CheckDigitsHold(ValueOf(BasisDigits(s)), CheckField(s)))
  {
    if !CanValidate(s) then Raised
    else
      ChecksumCharacterization(ValueOf(BasisDigits(s)), CheckField(s));
      Returned(Checksum(ValueOf(BasisDigits(s))) == CheckField(s))
  }

  /** `is_valid`: false for anything that is not text, else `validate`. */
  function IsValid(v: Value): (r: Outcome<bool>)
    requires v.Text? ==> InAlphabet(v.text)
    ensures r.Raised? <==> v.Text? && !CanValidate(v.text)
    ensures r == Returned(true)
        <==> v.Text? && CanValidate(v.text)
             && CheckDigitsHold(ValueOf(BasisDigits(v.text)), CheckField(v.text))
  {
    if v.Text? then Validate(v.text) else Returned(false)
  }

  // ---------------------------------------------------------------------
  // The fields and their two serializations

  /** The six fields as text: NNNNNNN, DD, AAAA, J, TR, OOOO. */
  datatype Fields = Fields(sequence: string, check: string, year: string,
                           segment: string, court: string, forum: string)

  /** The fields other than DD are numerals, and the forum is not empty,
      so that a digit is always left after the check field for `int()`. */
  predicate NumericFields(f: Fields)
  {
    AllDigits(f.sequence) && AllDigits(f.year) && AllDigits(f.segment)
    && AllDigits(f.court) && AllDigits(f.forum) && |f.forum| > 0
  }

  predicate StandardWidths(f: Fields)
  {
    |f.sequence| == 7 && |f.check| == 2 && |f.year| == 4
    && |f.segment| == 1 && |f.court| == 2 && |f.forum| == 4
  }

  function Canonical(f: Fields): string
  {
    f.sequence + f.check + f.year + f.segment + f.court + f.forum
  }

  /** Every field but DD, in order: the text of the checksum basis. */
  function BasisOf(f: Fields): string
  {
    f.sequence + f.year + f.segment + f.court + f.forum
  }

  function Tail(f: Fields): string
  {
    f.year + "." + f.segment + "." + f.court + "." + f.forum
  }

  /** `NNNNNNN-DD.AAAA.J.TR.OOOO` */
  function DisplayText(f: Fields): string
  {
    f.sequence + "-" + f.check + "." + Tail(f)
  }

  lemma ScrubSeparated(a: string, sep: char, b: string)
    requires AllDigits(a) && (sep == '-' || sep == '.')
    ensures Scrub(a + [sep] + b) == a + Scrub(b)
  {
    FilterConcat(a + [sep], b, IsWordOrSpace);
    FilterConcat(a, [sep], IsWordOrSpace);
    FilterKeepsAll(a, IsWordOrSpace);
  }

  lemma ScrubTail(f: Fields)
    requires NumericFields(f)
    ensures Scrub(Tail(f)) == f.year + f.segment + f.court + f.forum
  {
    assert Tail(f) == f.year + ['.'] + (f.segment + ['.'] + (f.court + ['.'] + f.forum));
    ScrubSeparated(f.year, '.', f.segment + ['.'] + (f.court + ['.'] + f.forum));
    ScrubSeparated(f.segment, '.', f.court + ['.'] + f.forum);
    ScrubSeparated(f.court, '.', f.forum);
    FilterKeepsAll(f.forum, IsWordOrSpace);
  }

  /** Deleting the separators from the display form gives the canonical form. */
  lemma ScrubDisplayText(f: Fields)
    requires NumericFields(f) && AllDigits(f.check)
    ensures Scrub(DisplayText(f)) == Canonical(f)
  {
    assert DisplayText(f) == f.sequence + ['-'] + (f.check + ['.'] + Tail(f));
    ScrubSeparated(f.sequence, '-', f.check + ['.'] + Tail(f));
    ScrubSeparated(f.check, '.', Tail(f));
    ScrubTail(f);
  }

  /** In a text `a-dd.t` whose `a` is all digits and whose `dd` holds no
      '.' and no line feed, the search of `validate` finds `dd` and cuts out
      `-dd.`. */
  lemma SearchFindsCheck(a: string, dd: string, t: string)
    requires AllDigits(a) && '.' !in dd && '\n' !in dd
    ensures HasCheckField(a + "-" + dd + "." + t)
    ensures CheckField(a + "-" + dd + "." + t) == dd
    ensures Remainder(a + "-" + dd + "." + t) == a + t
  {
    var s := a + "-" + dd + "." + t;
    var n := |a|;
    assert s[n] == '-' && s[n + 1 + |dd|] == '.';
    assert forall m :: 0 <= m < n ==> s[m] == a[m];
    assert forall m :: n + 1 <= m < n + 1 + |dd| ==> s[m] == dd[m - n - 1];
    StopOfFirst(s, n + 1, n + 1 + |dd|);
    assert MatchesAt(s, n);
    MatchStartFirst(s, 0, n);
    assert s[..n] == a;
    assert s[n + 1..n + 1 + |dd|] == dd;
    assert s[n + 1 + |dd| + 1..] == t;
  }

  lemma DisplayTextAlphabet(f: Fields)
    requires NumericFields(f) && InAlphabet(f.check)
    ensures InAlphabet(DisplayText(f))
  {
  }

  /** Round trip through `validate`: for any digit fields and any two
      characters in the DD place, the display form can be validated, and it
      is valid exactly when DD is the checksum of the other fields. */
  lemma CheckDigitsDetermined(f: Fields)
    requires NumericFields(f) && |f.check| == 2 && InAlphabet(f.check)
    ensures InAlphabet(DisplayText(f)) && AllDigits(BasisOf(f))
    ensures CanValidate(DisplayText(f))
    ensures Validate(DisplayText(f)) == Returned(f.check == Checksum(ValueOf(BasisOf(f))))
  {
    DisplayTextAlphabet(f);
    FieldsDigits(f);
    if '.' !in f.check {
      CheckWithoutDot(f);
    } else {
      CheckWithDot(f);
    }
  }

  lemma CheckWithoutDot(f: Fields)
    requires NumericFields(f) && InAlphabet(f.check) && '.' !in f.check
    ensures CanValidate(DisplayText(f))
    ensures CheckField(DisplayText(f)) == f.check
    ensures BasisDigits(DisplayText(f)) == BasisOf(f)
  {
    var s := DisplayText(f);
    DisplayTextAlphabet(f);
    SearchFindsCheck(f.sequence, f.check, Tail(f));
    assert Remainder(s) == f.sequence + Tail(f);
    FilterConcat(f.sequence, Tail(f), IsWordOrSpace);
    FilterKeepsAll(f.sequence, IsWordOrSpace);
    ScrubTail(f);
    assert Scrub(Remainder(s)) == f.sequence + (f.year + f.segment + f.court + f.forum);
    BasisAfterSequence(f);
  }

  lemma BasisAfterSequence(f: Fields)
    ensures BasisOf(f) == f.sequence + (f.year + f.segment + f.court + f.forum)
  {
  }

  lemma CheckWithDot(f: Fields)
    requires NumericFields(f) && |f.check| == 2 && InAlphabet(f.check) && '.' in f.check
    ensures CanValidate(DisplayText(f))
    ensures |CheckField(DisplayText(f))| < 2
  {
    var s := DisplayText(f);
    DisplayTextAlphabet(f);
    TailEndsInForum(f);
    if f.check[0] == '.' {
      var t := [f.check[1]] + "." + Tail(f);
      assert s == f.sequence + "-" + [] + "." + t;
      SearchFindsCheck(f.sequence, [], t);
    } else {
      var t := "." + Tail(f);
      assert s == f.sequence + "-" + [f.check[0]] + "." + t;
      SearchFindsCheck(f.sequence, [f.check[0]], t);
    }
    var r := Remainder(s);
    assert r[|r| - 1] == Tail(f)[|Tail(f)| - 1];
  }

  lemma TailEndsInForum(f: Fields)
    requires |f.forum| > 0
    ensures |Tail(f)| > 0 && Tail(f)[|Tail(f)| - 1] == f.forum[|f.forum| - 1]
  {
  }

  /** Splits a 20-character canonical number at the widths 7-2-4-1-2-4. */
  function Split(canonical: string): (f: Fields)
    requires |canonical| == 20
    ensures StandardWidths(f) && Canonical(f) == canonical
  {
    var c := canonical;
    assert c == c[..7] + c[7..9] + c[9..13] + c[13..14] + c[14..16] + c[16..];
    Fields(c[..7], c[7..9], c[9..13], c[13..14], c[14..16], c[16..])
  }

  lemma SplitCanonical(f: Fields)
    requires StandardWidths(f)
    ensures Split(Canonical(f)) == f
  {
    var c := Canonical(f);
    assert c[..7] == f.sequence && c[7..9] == f.check && c[9..13] == f.year;
    assert c[13..14] == f.segment && c[14..16] == f.court && c[16..] == f.forum;
  }

  /** The substitution `\1-\2.\3.\4.\5.\6` of the 20-digit pattern: '-'
      after digit 7 and '.' after digits 9, 13, 14 and 16. */
  function Layout(canonical: string): (display: string)
    requires |canonical| == 20
    ensures |display| == 25
    ensures display[..7] == canonical[..7] && display[7] == '-'
    ensures display[8..10] == canonical[7..9] && display[10] == '.'
    ensures display[11..15] == canonical[9..13] && display[15] == '.'
    ensures display[16] == canonical[13] && display[17] == '.'
    ensures display[18..20] == canonical[14..16] && display[20] == '.'
    ensures display[21..] == canonical[16..]
  {
    DisplayText(Split(canonical))
  }

  /** The layout of the canonical form of standard-width fields is their
      display form, and deleting its separators gives the input back. */
  lemma LayoutRoundTrip(f: Fields)
    requires StandardWidths(f) && NumericFields(f) && AllDigits(f.check)
    ensures Layout(Canonical(f)) == DisplayText(f)
    ensures Scrub(Layout(Canonical(f))) == Canonical(f)
  {
    SplitCanonical(f);
    ScrubDisplayText(f);
  }

  /** The two characters at position `n` of `id` are the checksum of all
      the other characters read as one number. */
  predicate ChecksumAt(id: string, n: nat)
  {
    n + 2 <= |id| && AllDigits(id[..n] + id[n + 2..])
    && id[n..n + 2] == Checksum(ValueOf(id[..n] + id[n + 2..]))
  }

  /** A canonical number is valid when its DD (the characters at 7 and 8)
      is the checksum of its other 18 digits. */
  predicate CanonicalValid(s: string)
  {
    |s| == 20 && AllDigits(s) && ChecksumAt(s, 7)
  }

  lemma LayoutValidation(s: string)
    requires |s| == 20 && AllDigits(s)
    ensures CanValidate(Layout(s))
    ensures Validate(Layout(s)) == Returned(CanonicalValid(s))
    ensures Scrub(Layout(s)) == s
  {
    var f := Split(s);
    SplitDigits(s);
    CheckDigitsDetermined(f);
    ScrubDisplayText(f);
    SplitValid(s);
  }

  /** The layout only adds separators: its digits are the input's. */
  lemma LayoutDigits(s: string)
    requires |s| == 20 && AllDigits(s)
    ensures Filter(Layout(s), IsDigit) == s
  {
    LayoutValidation(s);
    ScrubProcessText(Layout(s));
  }

  /** Neither of the separators the layout inserts. */
  predicate NotSeparator(c: char) { c != '-' && c != '.' }

  /** On digits, '-' and '.', dropping the separators keeps the digits. */
  lemma {:induction false} AlphabetNotSeparator(t: string)
    requires InAlphabet(t)
    ensures Filter(t, NotSeparator) == Filter(t, IsDigit)
    decreases |t|
  {
    if t != [] {
      AlphabetNotSeparator(t[1..]);
    }
  }

  /** Dropping the separators from the layout of 20 digits gives them back. */
  lemma LayoutNonSeparators(s: string)
    requires |s| == 20 && AllDigits(s)
    ensures Filter(Layout(s), NotSeparator) == s
  {
    LayoutValidation(s);
    AlphabetNotSeparator(Layout(s));
    LayoutDigits(s);
  }

  /** A 20-digit text is valid exactly when its DD field is the checksum of
      the value of its other fields. */
  lemma SplitValid(s: string)
    requires |s| == 20 && AllDigits(s)
    ensures NumericFields(Split(s)) && AllDigits(BasisOf(Split(s)))
    ensures CanonicalValid(s) <==> Split(s).check == Checksum(ValueOf(BasisOf(Split(s))))
  {
    SplitDigits(s);
    AllDigitsConcat(s[..7], s[9..]);
  }

  lemma SplitDigits(s: string)
    requires |s| == 20 && AllDigits(s)
    ensures NumericFields(Split(s)) && AllDigits(Split(s).check)
    ensures BasisOf(Split(s)) == s[..7] + s[9..]
  {
    var f := Split(s);
    assert f.sequence + f.year + f.segment + f.court + f.forum == s[..7] + s[9..];
  }

  // ---------------------------------------------------------------------
  // Formatting

  /** `re.sub(r"(\d{7})(\d{2})(\d{4})(\d)(\d{2})(\d{4})", r"\1-\2.\3.\4.\5.\6", s)`:
      every run of 20 digits, scanning from the left, is laid out. */
  function SubstituteLayout(s: string): (r: string)
    ensures |r| >= |s|
    ensures Filter(r, IsDigit) == Filter(s, IsDigit)
    ensures Filter(r, NotSeparator) == Filter(s, NotSeparator)
    decreases |s|
  {
    if |s| >= 20 && AllDigits(s[..20]) then
      var rest := SubstituteLayout(s[20..]);
      LayoutDigits(s[..20]);
      LayoutNonSeparators(s[..20]);
      FilterConcat(Layout(s[..20]), rest, IsDigit);
      FilterConcat(Layout(s[..20]), rest, NotSeparator);
      assert s == s[..20] + s[20..];
      FilterConcat(s[..20], s[20..], IsDigit);
      FilterConcat(s[..20], s[20..], NotSeparator);
      FilterKeepsAll(s[..20], IsDigit);
      FilterKeepsAll(s[..20], NotSeparator);
      Layout(s[..20]) + rest
    else if s == [] then []
    else
      var rest := SubstituteLayout(s[1..]);
      FilterConcat([s[0]], rest, IsDigit);
      FilterConcat([s[0]], rest, NotSeparator);
      assert s == [s[0]] + s[1..];
      FilterConcat([s[0]], s[1..], IsDigit);
      FilterConcat([s[0]], s[1..], NotSeparator);
      [s[0]] + rest
  }

  predicate DigitRunAt(s: string, k: nat)
  {
    k + 20 <= |s| && AllDigits(s[k..k + 20])
  }

  predicate HasDigitRun(s: string)
  {
    exists k: nat :: k < |s| && DigitRunAt(s, k)
  }

  /** Where no 20 digits stand in a row the substitution changes nothing. */
  lemma {:induction false} SubstituteWithoutRun(s: string)
    requires !HasDigitRun(s)
    ensures SubstituteLayout(s) == s
    decreases |s|
  {
    if s != [] {
      if |s| >= 20 {
        assert s[0..20] == s[..20];
        assert !DigitRunAt(s, 0);
      }
      forall k: nat | DigitRunAt(s[1..], k)
        ensures false
      {
        assert s[1..][k..k + 20] == s[k + 1..k + 21];
        assert DigitRunAt(s, k + 1);
      }
      SubstituteWithoutRun(s[1..]);
    }
  }

  lemma SubstituteCanonical(s: string)
    requires |s| == 20 && AllDigits(s)
    ensures SubstituteLayout(s) == Layout(s)
  {
    assert s[..20] == s && s[20..] == [];
  }

  /** `format_processo_juridico` as written: `is_valid` is asked about the
      very text that is then laid out, and its exception passes through. */
  function FormatAsWritten(v: Value): (r: Outcome<Option<string>>)
    requires v.Text? ==> InAlphabet(v.text)
    ensures r.Raised? <==> v.Text? && !CanValidate(v.text)
    ensures r.Returned? && r.value.Some? <==> IsValid(v) == Returned(true)
    ensures r.Returned? && r.value.Some? ==> r.value.value == SubstituteLayout(v.text)
  {
    match IsValid(v)
    case Raised => Raised
    case Returned(valid) => Returned(if valid then Some(SubstituteLayout(v.text)) else None)
  }

  /** A digits-only text, such as a canonical number, has no '-': the search
      of `validate` finds no match and `match.group` fails. */
  lemma DigitsCannotValidate(s: string)
    requires AllDigits(s)
    ensures InAlphabet(s) && !HasCheckField(s) && !CanValidate(s)
  {
  }

  /** Format as written raises on every digits-only text, the 20-digit
      canonical numbers its layout is written for among them. */
  lemma FormatAsWrittenRaisesOnDigits(s: string)
    requires AllDigits(s)
    ensures FormatAsWritten(Text(s)) == Raised
  {
    DigitsCannotValidate(s);
  }

  /** On a display form, format as written never lays out anything: a
      display form with standard widths has no run of 20 digits and comes
      back unchanged when its DD checks. */
  lemma FormatAsWrittenKeepsDisplayText(f: Fields)
    requires NumericFields(f) && StandardWidths(f) && InAlphabet(f.check)
    ensures InAlphabet(DisplayText(f)) && AllDigits(BasisOf(f))
    ensures CanValidate(DisplayText(f))
    ensures FormatAsWritten(Text(DisplayText(f)))
         == Returned(if f.check == Checksum(ValueOf(BasisOf(f))) then Some(DisplayText(f)) else None)
  {
    CheckDigitsDetermined(f);
    var s := DisplayText(f);
    DisplayDash(f);
    NoRunAcross(s, 7);
    SubstituteWithoutRun(s);
  }

  lemma DisplayDash(f: Fields)
    requires StandardWidths(f)
    ensures |DisplayText(f)| == 25 && DisplayText(f)[7] == '-'
  {
    assert DisplayText(f) == f.sequence + ("-" + f.check + "." + Tail(f));
  }

  /** A text of at most `p + 20` characters whose character `p < 20` is not
      a digit has no run of 20 digits: every window of 20 covers `p`. */
  lemma NoRunAcross(s: string, p: nat)
    requires p < 20 && p < |s| && |s| <= p + 20 && !IsDigit(s[p])
    ensures !HasDigitRun(s)
  {
    forall k: nat | k < |s|
      ensures !DigitRunAt(s, k)
    {
      if k + 20 <= |s| {
        assert s[k..k + 20][p - k] == s[p];
      }
    }
  }

  /** `format_processo_juridico` as evidently intended: a 20-digit canonical
      number whose DD is its checksum is laid out, anything else gives None. */
  function FormatProcessoJuridico(v: Value): (r: Option<string>)
    ensures r.Some? <==> v.Text? && CanonicalValid(v.text)
    ensures r.Some? ==> r.value == Layout(v.text) && Scrub(r.value) == v.text
  {
    if v.Text? && |v.text| == 20 && AllDigits(v.text) then
      LayoutValidation(v.text);
      if Validate(Layout(v.text)) == Returned(true) then Some(Layout(v.text)) else None
    else None
  }

  /** `str.isdigit()`: non-empty and digits only. */
  predicate IsDigitText(s: string) { |s| > 0 && AllDigits(s) }

  /** `set(s)`: the characters occurring in `s`. */
  function CharSet(s: string): set<char>
  {
    set k | 0 <= k < |s| :: s[k]
  }

  /** `len(set(s)) == 1`: one character, repeated. */
  predicate OneRepeatedChar(s: string)
    ensures OneRepeatedChar(s) <==> |CharSet(s)| == 1
  {
    OneCharSet(s);
    |s| > 0 && forall k :: 0 <= k < |s| ==> s[k] == s[0]
  }

  lemma OneCharSet(s: string)
    ensures (|s| > 0 && forall k :: 0 <= k < |s| ==> s[k] == s[0]) <==> |CharSet(s)| == 1
  {
    if |s| > 0 && forall k :: 0 <= k < |s| ==> s[k] == s[0] {
      assert CharSet(s) == {s[0]};
    } else if |CharSet(s)| == 1 {
      var k :| 0 <= k < |s| && s[k] != s[0];
      assert {s[0], s[k]} <= CharSet(s);
      assert |{s[0], s[k]}| == 2;
      SubsetSize({s[0], s[k]}, CharSet(s));
    }
  }

  lemma SubsetSize(a: set<char>, b: set<char>)
    requires a <= b
    ensures |a| <= |b|
  {
    assert b == a + (b - a);
  }

  /** The guard of `display` as written: eleven digits, not all the same. */
  predicate PassesDisplayGuardAsWritten(s: string)
    ensures PassesDisplayGuardAsWritten(s) <==>
      IsDigitText(s) && |s| == 11 && |CharSet(s)| != 1
  {
    IsDigitText(s) && |s| == 11 && !OneRepeatedChar(s)
  }

  /** `display` as written: None for what the guard rejects, and whatever
      format as written does with the rest, which is to raise. It never
      returns a display form. */
  function DisplayAsWritten(s: string): (r: Outcome<Option<string>>)
    ensures r.Raised? <==> PassesDisplayGuardAsWritten(s)
    ensures r.Returned? ==> r.value == None
  {
    if !PassesDisplayGuardAsWritten(s) then Returned(None)
    else
      FormatAsWrittenRaisesOnDigits(s);
      FormatAsWritten(Text(s))
  }

  /** Even past the failing `validate`, the layout would not apply to what
      the guard lets through: eleven digits hold no run of twenty. */
  lemma DisplayGuardTooShortForLayout(s: string)
    requires PassesDisplayGuardAsWritten(s)
    ensures SubstituteLayout(s) == s
  {
    SubstituteWithoutRun(s);
  }

  /** Worked values of the guard: eleven equal digits are refused, and
      eleven mixed digits get through to a failing `validate`. */
  lemma DisplayAsWrittenExamples()
    ensures DisplayAsWritten("11111111111") == Returned(None)
    ensures DisplayAsWritten("12345678901") == Raised
  {
    var same, mixed := "11111111111", "12345678901";
    assert OneRepeatedChar(same);
    assert mixed[1] != mixed[0];
  }

  /** `display` with the guard asking for the 20 digits the layout needs. */
  function Display(s: string): (r: Option<string>)
    ensures r.Some? <==> IsDigitText(s) && |s| == 20 && !OneRepeatedChar(s) && CanonicalValid(s)
    ensures r.Some? ==> r.value == Layout(s)
  {
    if !IsDigitText(s) || |s| != 20 || OneRepeatedChar(s) then None
    else FormatProcessoJuridico(Text(s))
  }

  // ---------------------------------------------------------------------
  // Generation

  /** A court registry entry: the court codes and the forum codes of one
      justice segment. */
  datatype Segment = Segment(courtIds: seq<nat>, forumIds: seq<nat>)

  /** The registry, keyed by the segment code J. */
  type Registry = map<nat, Segment>

  predicate RegistryReady(registry: Registry)
  {
    forall j: nat :: 4 <= j <= 9 ==>
      j in registry && |registry[j].courtIds| > 0 && |registry[j].forumIds| > 0
  }

  /** Court codes fit two digits and forum codes four. */
  predicate FitsStandardWidths(registry: Registry)
  {
    (forall j, k :: j in registry && 0 <= k < |registry[j].courtIds| ==> registry[j].courtIds[k] < 100)
    && (forall j, k :: j in registry && 0 <= k < |registry[j].forumIds| ==> registry[j].forumIds[k] < 10000)
  }

  /** `randint(lo, hi)`, given the offset into [lo, hi] the random source drew. */
  function RandInt(lo: nat, hi: nat, offset: nat): (r: nat)
    requires lo <= hi && offset <= hi - lo
    ensures lo <= r <= hi
  {
    lo + offset
  }

  /** The offsets of the five draws of `generate`, in the order it draws them. */
  datatype Draws = Draws(segment: nat, court: nat, forum: nat, year: nat, sequence: nat)

  predicate DrawsFit(registry: Registry, currentYear: nat, d: Draws)
    requires RegistryReady(registry)
  {
    d.segment <= 5
    && d.court < |registry[4 + d.segment].courtIds|
    && d.forum < |registry[4 + d.segment].forumIds|
    && 1970 <= currentYear && d.year <= currentYear - 1970
    && d.sequence <= 9999999
  }

  /** `_generate_random_year`: a year from 1970 to the current one. */
  function GenerateRandomYear(currentYear: nat, offset: nat): (year: nat)
    requires 1970 <= currentYear && offset <= currentYear - 1970
    ensures 1970 <= year <= currentYear
  {
    RandInt(1970, currentYear, offset)
  }

  /** `str(ids[randint(0, len(ids) - 1)]).zfill(width)`: a registry code,
      zero-padded to at least `width` characters. */
  function PaddedCode(ids: seq<nat>, offset: nat, width: nat): (code: string)
    requires offset < |ids|
    ensures AllDigits(code) && |code| >= width
    ensures ValueOf(code) in ids
    ensures code == ZFill(Show(ValueOf(code)), width)
  {
    var id := ids[RandInt(0, |ids| - 1, offset)];
    ZFillValue(Show(id), width);
    ZFill(Show(id), width)
  }

  /** The fields `generate` draws and computes. */
  function GenerateFields(registry: Registry, currentYear: nat, d: Draws): (f: Fields)
    requires RegistryReady(registry) && DrawsFit(registry, currentYear, d)
    ensures NumericFields(f) && AllDigits(f.check) && |f.sequence| <= 7
    ensures AllDigits(BasisOf(f)) && f.check == Checksum(ValueOf(BasisOf(f)))
  {
    var j := RandInt(4, 9, d.segment);
    var tr := PaddedCode(registry[j].courtIds, d.court, 2);
    var oooo := PaddedCode(registry[j].forumIds, d.forum, 4);
    var aaaa := Show(GenerateRandomYear(currentYear, d.year));
    var n := Show(RandInt(0, 9999999, d.sequence));
    assert Pow10(7) == 10000000;
    ShowLength(ValueOf(n), 7);
    var g := Fields(n, "", aaaa, Show(j), tr, oooo);
    FieldsDigits(g);
    var f := g.(check := Checksum(ValueOf(BasisOf(g))));
    assert BasisOf(f) == BasisOf(g);
    f
  }

  /** What `generate` draws: a segment J from 4 to 9 present in the
      registry, a court code and a forum code of that segment zero-filled to
      two and four digits, a year from 1970 to the current one and a
      sequential number below 10^7, the last two without padding. */
  lemma GeneratedCodes(registry: Registry, currentYear: nat, d: Draws)
    requires RegistryReady(registry) && DrawsFit(registry, currentYear, d)
    ensures var f := GenerateFields(registry, currentYear, d);
      && |f.segment| == 1 && 4 <= ValueOf(f.segment) <= 9 && ValueOf(f.segment) in registry
      && ValueOf(f.court) in registry[ValueOf(f.segment)].courtIds
      && f.court == ZFill(Show(ValueOf(f.court)), 2)
      && ValueOf(f.forum) in registry[ValueOf(f.segment)].forumIds
      && f.forum == ZFill(Show(ValueOf(f.forum)), 4)
      && 1970 <= ValueOf(f.year) <= currentYear && f.year == Show(ValueOf(f.year))
      && ValueOf(f.sequence) <= 9999999 && f.sequence == Show(ValueOf(f.sequence))
  {
  }

  /** `generate` with line 93 corrected to pass the integer value: the
      fields concatenated in canonical order, the sequential number without
      zero padding. The two digits after the sequential number are the
      checksum of all the others. */
  function Generate(registry: Registry, currentYear: nat, d: Draws): (id: string)
    requires RegistryReady(registry) && DrawsFit(registry, currentYear, d)
    ensures AllDigits(id)
    ensures ChecksumAt(id, |GenerateFields(registry, currentYear, d).sequence|)
  {
    var f := GenerateFields(registry, currentYear, d);
    ChecksumAfterSequence(f);
    Canonical(f)
  }

  /** `generate` as written: the checksum is asked of the f-string of the
      drawn fields, which is text, not the integer it spells. `_checksum`
      raises `TypeError` on text, so every call raises before any number
      is returned. */
  function GenerateAsWritten(registry: Registry, currentYear: nat, d: Draws): (r: Outcome<string>)
    requires RegistryReady(registry) && DrawsFit(registry, currentYear, d)
    ensures r == Raised
  {
    var f := GenerateFields(registry, currentYear, d);
    WithCheck(f, ChecksumOf(Text(BasisOf(f))))
  }

  /** The f-string of line 94 once the checksum call has returned. */
  function WithCheck(f: Fields, dd: Outcome<string>): (r: Outcome<string>)
    ensures r.Raised? <==> dd.Raised?
    ensures dd.Returned? && |dd.value| == 2 ==>
      var n := |f.sequence|;
      r.Returned? && n + 2 <= |r.value| && r.value[n..n + 2] == dd.value
      && r.value[..n] + r.value[n + 2..] == BasisOf(f)
  {
    match dd
    case Raised => Raised
    case Returned(check) =>
      var g := f.(check := check);
      if |check| == 2 then
        CheckAfterSequence(g);
        assert BasisOf(g) == BasisOf(f);
        Returned(Canonical(g))
      else Returned(Canonical(g))
  }

  /** In the canonical order DD stands right after the sequential number, and
      cutting it out leaves the basis. */
  lemma CheckAfterSequence(f: Fields)
    requires |f.check| == 2
    ensures var id, n := Canonical(f), |f.sequence|;
      n + 2 <= |id| && id[n..n + 2] == f.check && id[..n] + id[n + 2..] == BasisOf(f)
  {
    var id, n := Canonical(f), |f.sequence|;
    assert id == f.sequence + f.check + (f.year + f.segment + f.court + f.forum);
  }

  /** Fields whose DD is the checksum of their basis make a numeral whose two
      digits after the sequential number are the checksum of the rest. */
  lemma ChecksumAfterSequence(f: Fields)
    requires NumericFields(f) && AllDigits(BasisOf(f))
    requires f.check == Checksum(ValueOf(BasisOf(f)))
    ensures AllDigits(Canonical(f))
    ensures ChecksumAt(Canonical(f), |f.sequence|)
  {
    CheckAfterSequence(f);
    FieldsDigits(f);
  }

  lemma AllDigitsConcat(a: string, b: string)
    ensures AllDigits(a + b) <==> AllDigits(a) && AllDigits(b)
  {
    if AllDigits(a + b) {
      assert forall k :: 0 <= k < |a| ==> a[k] == (a + b)[k];
      assert forall k :: 0 <= k < |b| ==> b[k] == (a + b)[|a| + k];
    }
    if AllDigits(a) && AllDigits(b) {
      assert forall k :: 0 <= k < |a + b| ==> (a + b)[k] == if k < |a| then a[k] else b[k - |a|];
    }
  }

  /** Numeric fields make a numeric basis, and with numeric DD a numeric
      canonical text. */
  lemma FieldsDigits(f: Fields)
    requires NumericFields(f)
    ensures AllDigits(BasisOf(f))
    ensures AllDigits(f.check) ==> AllDigits(Canonical(f))
  {
    AllDigitsConcat(f.sequence, f.year);
    AllDigitsConcat(f.sequence + f.year, f.segment);
    AllDigitsConcat(f.sequence + f.year + f.segment, f.court);
    AllDigitsConcat(f.sequence + f.year + f.segment + f.court, f.forum);
    AllDigitsConcat(f.sequence, f.check);
    AllDigitsConcat(f.sequence + f.check, f.year);
    AllDigitsConcat(f.sequence + f.check + f.year, f.segment);
    AllDigitsConcat(f.sequence + f.check + f.year + f.segment, f.court);
    AllDigitsConcat(f.sequence + f.check + f.year + f.segment + f.court, f.forum);
  }

  /** The display form of every generated number validates. */
  lemma GenerateValidates(registry: Registry, currentYear: nat, d: Draws)
    requires RegistryReady(registry) && DrawsFit(registry, currentYear, d)
    ensures CanValidate(DisplayText(GenerateFields(registry, currentYear, d)))
    ensures Validate(DisplayText(GenerateFields(registry, currentYear, d))) == Returned(true)
  {
    CheckDigitsDetermined(GenerateFields(registry, currentYear, d));
  }

  lemma LeadingZerosKeepValue(k: nat, s: string)
    requires AllDigits(s)
    ensures AllDigits(Zeros(k) + s) && ValueOf(Zeros(k) + s) == ValueOf(s)
  {
    ZerosValue(k);
    ValueOfConcat(Zeros(k), s);
  }

  /** The fields with the sequential number zero-padded to seven digits:
      the basis keeps its value, so DD stays its checksum. */
  function PadSequence(f: Fields): (p: Fields)
    requires NumericFields(f) && AllDigits(f.check) && |f.sequence| <= 7
    ensures p == f.(sequence := p.sequence) && |p.sequence| == 7 && AllDigits(p.sequence)
    ensures AllDigits(BasisOf(p)) && ValueOf(BasisOf(p)) == ValueOf(BasisOf(f))
    ensures Canonical(p) == Zeros(7 - |f.sequence|) + Canonical(f)
  {
    var z := Zeros(7 - |f.sequence|);
    assert ZFill(f.sequence, 7) == z + f.sequence;
    PrefixSequence(z, f);
    FieldsDigits(f);
    LeadingZerosKeepValue(|z|, BasisOf(f));
    LeadingZerosKeepValue(|z|, f.sequence);
    f.(sequence := ZFill(f.sequence, 7))
  }

  /** Text put in front of the sequential number goes in front of the basis
      and of the canonical text. */
  lemma PrefixSequence(z: string, f: Fields)
    ensures BasisOf(f.(sequence := z + f.sequence)) == z + BasisOf(f)
    ensures Canonical(f.(sequence := z + f.sequence)) == z + Canonical(f)
  {
  }

  /** `generate` with the sequential number padded to its seven digits. */
  function GenerateCanonical(registry: Registry, currentYear: nat, d: Draws): (id: string)
    requires RegistryReady(registry) && DrawsFit(registry, currentYear, d)
    ensures AllDigits(id)
  {
    var f := GenerateFields(registry, currentYear, d);
    assert Pow10(7) == 10000000;
    ShowLength(ValueOf(f.sequence), 7);
    FieldsDigits(f);
    LeadingZerosKeepValue(7 - |f.sequence|, Canonical(f));
    Canonical(PadSequence(f))
  }

  /** The padded form is the output of `generate` with line 93 corrected
      (`Generate`), with the dropped zeros put back. */
  lemma GenerateCanonicalPads(registry: Registry, currentYear: nat, d: Draws)
    requires RegistryReady(registry) && DrawsFit(registry, currentYear, d)
    ensures GenerateCanonical(registry, currentYear, d)
         == Zeros(7 - |GenerateFields(registry, currentYear, d).sequence|) + Generate(registry, currentYear, d)
  {
    var f := GenerateFields(registry, currentYear, d);
    assert Pow10(7) == 10000000;
    ShowLength(ValueOf(f.sequence), 7);
  }

  /** With court codes of two digits, forum codes of four and a year of four,
      the padded form is a 20-digit number whose DD checks. */
  lemma GenerateCanonicalValid(registry: Registry, currentYear: nat, d: Draws)
    requires RegistryReady(registry) && DrawsFit(registry, currentYear, d)
    requires FitsStandardWidths(registry) && currentYear <= 9999
    ensures CanonicalValid(GenerateCanonical(registry, currentYear, d))
  {
    var f := GenerateFields(registry, currentYear, d);
    assert Pow10(7) == 10000000;
    ShowLength(ValueOf(f.sequence), 7);
    GeneratedWidths(registry, currentYear, d);
    PaddedFieldsValid(PadSequence(f));
  }

  /** Standard-width numeric fields whose DD is the checksum of their basis
      give a valid 20-digit number. */
  lemma PaddedFieldsValid(p: Fields)
    requires StandardWidths(p) && NumericFields(p) && AllDigits(p.check)
    requires AllDigits(BasisOf(p)) && p.check == Checksum(ValueOf(BasisOf(p)))
    ensures CanonicalValid(Canonical(p))
  {
    CheckAfterSequence(p);
    FieldsDigits(p);
  }

  /** A registry code below `10^width` zero-fills to exactly `width` digits. */
  lemma CodeWidth(ids: seq<nat>, code: string, width: nat)
    requires width >= 1 && AllDigits(code) && ValueOf(code) in ids
    requires forall k :: 0 <= k < |ids| ==> ids[k] < Pow10(width)
    requires code == ZFill(Show(ValueOf(code)), width)
    ensures |code| == width
  {
    ShowLength(ValueOf(code), width);
  }

  /** Under the standard-width registry and a four-digit current year, the
      drawn court, forum and year have their standard widths. */
  lemma GeneratedWidths(registry: Registry, currentYear: nat, d: Draws)
    requires RegistryReady(registry) && DrawsFit(registry, currentYear, d)
    requires FitsStandardWidths(registry) && currentYear <= 9999
    ensures var f := GenerateFields(registry, currentYear, d);
      |f.court| == 2 && |f.forum| == 4 && |f.year| == 4
  {
    var f := GenerateFields(registry, currentYear, d);
    GeneratedCodes(registry, currentYear, d);
    var seg := registry[ValueOf(f.segment)];
    assert Pow10(2) == 100 && Pow10(3) == 1000 && Pow10(4) == 10000;
    CodeWidth(seg.courtIds, f.court, 2);
    CodeWidth(seg.forumIds, f.forum, 4);
    ShowLength(ValueOf(f.year), 4);
    ShowLength(ValueOf(f.year), 3);
  }

  /** The output of `generate` with line 93 corrected (`Generate`) is the
      padded number without its leading zeros, so it has 20 digits only
      when the sequential number has seven. */
  lemma GenerateDropsLeadingZeros(registry: Registry, currentYear: nat, d: Draws)
    requires RegistryReady(registry) && DrawsFit(registry, currentYear, d)
    requires FitsStandardWidths(registry) && currentYear <= 9999
    ensures |Generate(registry, currentYear, d)| == 20
        <==> ValueOf(GenerateFields(registry, currentYear, d).sequence) >= 1000000
  {
    var f := GenerateFields(registry, currentYear, d);
    GeneratedWidths(registry, currentYear, d);
    assert |Generate(registry, currentYear, d)| == |f.sequence| + 13;
    assert Pow10(6) == 1000000 && Pow10(7) == 10000000;
    ShowLength(ValueOf(f.sequence), 6);
    ShowLength(ValueOf(f.sequence), 7);
  }
}
