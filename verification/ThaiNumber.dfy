/** Amounts spelled out in Thai, and the reader that gets them back. */
module ThaiNumber {
  import opened Outcome

  /** The words of a spelled amount.  `Et` is the "one" after a ten, `Yi` the "two"
      before one; `UnitName` and `CentsName` depend on the currency. */
  datatype Word =
    | Digit(d: nat) | Et | Yi | Sip | Roi | Pan | Muen | Saen | Lan
    | UnitName | CentsName | Exactly | Space

  datatype Currency = Baht | Yen | Pound | Dollar | Euro

  const MILLION := 1000000

  /* ---- numbers to words ---- */

  /** Numbers below 100. */
  function ConvertNn(val: nat): seq<Word>
    requires val < 100
  {
    if val < 10 then [Digit(val)]
    else
      var ten := if val / 10 == 1 then [Sip] else if val / 10 == 2 then [Yi, Sip] else [Digit(val / 10), Sip];
      if val % 10 == 0 then ten else ten + [if val % 10 == 1 then Et else Digit(val % 10)]
  }

  /** The power of ten of the leading digit, for numbers from 100 to a million. */
  function Denominator(val: nat): (r: (Word, nat))
    requires 100 <= val < MILLION
    ensures r.1 > 1 && r.1 <= val < 10 * r.1
  {
    if val < 1000 then (Roi, 100)
    else if val < 10000 then (Pan, 1000)
    else if val < 100000 then (Muen, 10000)
    else (Saen, 100000)
  }

  /** Splits off the millions; below a million it is the number itself. */
  function ConvertNnn(val: nat): seq<Word>
    decreases if val < MILLION then val else val, 1
  {
    var mod, rem := val % MILLION, val / MILLION;
    (if rem > 0 then ThaiNumber(rem) + [Lan] else [])
    + (if mod > 0 then ThaiNumber(mod) else [])
  }

  /** The mutual recursion ends: a number of a million or more is handed on
      unchanged, but then loses its last six digits; below a million it comes back
      unchanged, but is then only split at its leading digit. */
  function ThaiNumber(val: nat): seq<Word>
    decreases val, if val < MILLION then 0 else 2
  {
    if val < 100 then ConvertNn(val)
    else if val >= MILLION then ConvertNnn(val)
    else
      var (word, power) := Denominator(val);
      var lead := val / power;
      var rest := val - lead * power;
      LeadingDigit(val, power);
      ConvertNnn(lead) + [word] + (if rest > 0 then ThaiNumber(rest) else [])
  }

  lemma LeadingDigit(val: nat, power: nat)
    requires 1 < power <= val < 10 * power
    ensures 1 <= val / power <= 9 && 0 <= val - val / power * power < power
    ensures val / power < val
  {
    var q, r := val / power, val % power;
    assert val == q * power + r;
    if q >= 10 {
      Larger(10, q, power);
    }
    if q <= 0 {
      Larger(q, 0, power);
    }
    if q >= 1 {
      Doubled(q, power);
    }
  }

  lemma Larger(a: int, b: int, k: nat)
    requires a <= b
    ensures a * k <= b * k
  {}

  lemma Doubled(q: int, k: int)
    requires q >= 1 && k >= 2
    ensures q < q * k
  {}

  /* ---- words to numbers ---- */

  /** What a reader has so far: full millions, the current group and a digit still
      waiting for its power. */
  datatype Reading = Reading(millions: nat, group: nat, digit: Option<nat>) {
    function Value(): nat {
      millions + group + if digit.Some? then digit.value else 0
    }

    /** A power of ten multiplies the waiting digit; a bare one counts once. */
    function Times(power: nat): Reading {
      Reading(millions, group + (if digit.Some? then digit.value else 1) * power, None)
    }
  }

  function ReadWord(s: Reading, w: Word): Reading {
    match w
    case Digit(d) => s.(digit := Some(d))
    case Et => s.(digit := Some(1))
    case Yi => s.(digit := Some(2))
    case Sip => s.Times(10)
    case Roi => s.Times(100)
    case Pan => s.Times(1000)
    case Muen => s.Times(10000)
    case Saen => s.Times(100000)
    case Lan => Reading(s.Value() * MILLION, 0, None)
    case _ => s
  }

  function ReadWords(s: Reading, words: seq<Word>): Reading
    decreases |words|
  {
    if words == [] then s else ReadWords(ReadWord(s, words[0]), words[1..])
  }

  function ReadNumber(words: seq<Word>): nat {
    ReadWords(Reading(0, 0, None), words).Value()
  }

  lemma {:induction false} ReadConcat(s: Reading, x: seq<Word>, z: seq<Word>)
    ensures ReadWords(s, x + z) == ReadWords(ReadWords(s, x), z)
    decreases |x|
  {
    if x == [] {
      assert x + z == z;
    } else {
      assert (x + z)[1..] == x[1..] + z;
      ReadConcat(ReadWord(s, x[0]), x[1..], z);
    }
  }

  lemma ReadOne(s: Reading, w: Word)
    ensures ReadWords(s, [w]) == ReadWord(s, w)
  {
    assert [w][1..] == [];
  }

  lemma ReadTwo(s: Reading, v: Word, w: Word)
    ensures ReadWords(s, [v, w]) == ReadWord(ReadWord(s, v), w)
  {
    assert [v, w][1..] == [w];
    ReadOne(ReadWord(s, v), w);
  }

  lemma ReadNn(val: nat, m: nat, g: nat)
    requires val < 100
    ensures var r := ReadWords(Reading(m, g, None), ConvertNn(val)); r.millions == m && r.Value() == m + g + val
  {
    var s := Reading(m, g, None);
    if val < 10 {
      ReadOne(s, Digit(val));
    } else {
      var t := val / 10;
      var ten := if t == 1 then [Sip] else if t == 2 then [Yi, Sip] else [Digit(t), Sip];
      ReadOne(s, Sip);
      ReadTwo(s, Yi, Sip);
      ReadTwo(s, Digit(t), Sip);
      var after := ReadWords(s, ten);
      assert after == Reading(m, g + t * 10, None);
      if val % 10 != 0 {
        var last := if val % 10 == 1 then Et else Digit(val % 10);
        ReadConcat(s, ten, [last]);
        ReadOne(after, last);
      }
    }
  }

  /** Read after full millions, a number below a million adds itself. */
  lemma {:induction false} ReadBelowMillion(val: nat, m: nat, g: nat)
    requires val < MILLION
    ensures var r := ReadWords(Reading(m, g, None), ThaiNumber(val)); r.millions == m && r.Value() == m + g + val
    decreases val
  {
    if val < 100 {
      ReadNn(val, m, g);
    } else {
      var s := Reading(m, g, None);
      var (word, power) := Denominator(val);
      var lead := val / power;
      var rest := val - lead * power;
      LeadingDigit(val, power);
      assert ConvertNnn(lead) == [Digit(lead)] by {
        assert lead % MILLION == lead && lead / MILLION == 0;
        assert ThaiNumber(lead) == [Digit(lead)];
      }
      ReadTwo(s, Digit(lead), word);
      var after := Reading(m, g + lead * power, None);
      assert ReadWords(s, [Digit(lead), word]) == after;
      var tail := if rest > 0 then ThaiNumber(rest) else [];
      assert [Digit(lead)] + [word] == [Digit(lead), word];
      assert ThaiNumber(val) == [Digit(lead), word] + tail;
      ReadConcat(s, [Digit(lead), word], tail);
      if rest > 0 {
        ReadBelowMillion(rest, m, g + lead * power);
      }
    }
  }

  /** Round trip: reading the words of a number gives the number back. */
  lemma {:induction false} ThaiRoundTrip(val: nat)
    ensures ReadNumber(ThaiNumber(val)) == val
  {
    var s := Reading(0, 0, None);
    if val < MILLION {
      ReadBelowMillion(val, 0, 0);
    } else {
      var mod, rem := val % MILLION, val / MILLION;
      ThaiRoundTrip(rem);
      var tail := if mod > 0 then ThaiNumber(mod) else [];
      assert ThaiNumber(val) == ThaiNumber(rem) + [Lan] + tail;
      ReadConcat(s, ThaiNumber(rem) + [Lan], tail);
      ReadConcat(s, ThaiNumber(rem), [Lan]);
      ReadOne(ReadWords(s, ThaiNumber(rem)), Lan);
      if mod > 0 {
        ReadBelowMillion(mod, rem * MILLION, 0);
      }
    }
  }

  /* ---- spelling ---- */

  /** How a word is written; the currency decides the names of its units. */
  function Text(cur: Currency, w: Word): (r: string)
    ensures |r| >= 1 && (|r| == 1 <==> w == Space)
  {
    match w
    case Digit(d) =>
      if d == 0 then "ศูนย์" else if d == 1 then "หนึ่ง" else if d == 2 then "สอง" else if d == 3 then "สาม"
      else if d == 4 then "สี่" else if d == 5 then "ห้า" else if d == 6 then "หก" else if d == 7 then "เจ็ด"
      else if d == 8 then "แปด" else "เก้า"
    case Et => "เอ็ด"
    case Yi => "ยี่"
    case Sip => "สิบ"
    case Roi => "ร้อย"
    case Pan => "พัน"
    case Muen => "หมื่น"
    case Saen => "แสน"
    case Lan => "ล้าน"
    case UnitName =>
      (match cur
       case Baht => "บาท" case Yen => "เยน" case Pound => "ปอนด์" case Dollar => "ดอลล่าร์" case Euro => "ยูโร")
    case CentsName =>
      (match cur
       case Baht => "สตางค์" case Yen => "เซน" case Pound => "เพนนี" case Dollar => "เซนต์" case Euro => "เซนต์")
    case Exactly => "ถ้วน"
    case Space => " "
  }

  function Spell(cur: Currency, words: seq<Word>): string {
    if words == [] then "" else Text(cur, words[0]) + Spell(cur, words[1..])
  }

  /** The word that starts with two given characters. */
  function WordOf(cur: Currency, a: char, b: char): Option<Word> {
    if a == 'ส' then
      if b == 'อ' then Some(Digit(2)) else if b == 'า' then Some(Digit(3)) else if b == 'ี' then Some(Digit(4))
      else if b == 'ิ' then Some(Sip) else if b == 'ต' && cur == Baht then Some(CentsName) else None
    else if a == 'ห' then
      if b == 'น' then Some(Digit(1)) else if b == '้' then Some(Digit(5)) else if b == 'ก' then Some(Digit(6))
      else if b == 'ม' then Some(Muen) else None
    else if a == 'เ' then
      if b == 'จ' then Some(Digit(7)) else if b == 'ก' then Some(Digit(9)) else if b == 'อ' then Some(Et)
      else if b == 'ย' then Some(UnitName) else if b == 'ซ' || b == 'พ' then Some(CentsName) else None
    else if a == 'แ' then if b == 'ป' then Some(Digit(8)) else Some(Saen)
    else if a == 'ย' then if b == 'ี' then Some(Yi) else Some(UnitName)
    else if a == 'ศ' then Some(Digit(0))
    else if a == 'ร' then Some(Roi)
    else if a == 'พ' then Some(Pan)
    else if a == 'ล' then Some(Lan)
    else if a == 'ถ' then Some(Exactly)
    else if a == 'บ' || a == 'ป' || a == 'ด' then Some(UnitName)
    else None
  }

  /** Reads the words of a text back, as far as it can. */
  function ReadText(cur: Currency, text: string): seq<Word>
    decreases |text|
  {
    if text == "" then []
    else if text[0] == ' ' then [Space] + ReadText(cur, text[1..])
    else if |text| == 1 then []
    else
      var w := WordOf(cur, text[0], text[1]);
      if w.None? || |Text(cur, w.value)| > |text| then []
      else [w.value] + ReadText(cur, text[|Text(cur, w.value)|..])
  }

  ghost predicate Digits(words: seq<Word>) {
    forall k :: 0 <= k < |words| && words[k].Digit? ==> words[k].d < 10
  }

  /** The first two characters tell the words of a currency apart. */
  lemma LeadTells(cur: Currency, w: Word)
    requires w.Digit? ==> w.d < 10
    requires w != Space
    ensures Text(cur, w)[0] != ' ' && WordOf(cur, Text(cur, w)[0], Text(cur, w)[1]) == Some(w)
  {}

  /** Spelling loses nothing: the words can be read off the text. */
  lemma {:induction false} SpellingReads(cur: Currency, words: seq<Word>)
    requires Digits(words)
    ensures ReadText(cur, Spell(cur, words)) == words
  {
    if words != [] {
      var w := words[0];
      var t, rest := Text(cur, w), Spell(cur, words[1..]);
      SpellingReads(cur, words[1..]);
      var text := t + rest;
      assert text == Spell(cur, words) && text[|t|..] == rest;
      if w != Space {
        LeadTells(cur, w);
        assert text[0] == t[0] && text[1] == t[1];
      }
    }
  }

  /* ---- amounts ---- */

  /** The words of an amount given in cents. */
  function AmountWords(cents: nat): seq<Word> {
    ThaiNumber(cents / 100) + [UnitName]
    + if cents % 100 == 0 then [Exactly] else [Space] + ThaiNumber(cents % 100) + [CentsName]
  }

  function AmountToText(cur: Currency, cents: nat): string {
    Spell(cur, AmountWords(cents))
  }

  predicate NumberWord(w: Word) {
    w.Digit? || w.Et? || w.Yi? || w.Sip? || w.Roi? || w.Pan? || w.Muen? || w.Saen? || w.Lan?
  }

  /** Only number words, all of them digits below ten. */
  ghost predicate Spelled(words: seq<Word>) {
    forall k :: 0 <= k < |words| ==> NumberWord(words[k]) && (words[k].Digit? ==> words[k].d < 10)
  }

  lemma {:induction false} ThaiSpelled(val: nat)
    ensures Spelled(ThaiNumber(val))
    decreases val
  {
    if val < MILLION && val >= 100 {
      hide Spelled;
      var (word, power) := Denominator(val);
      LeadingDigit(val, power);
      DigitSpelled(val / power, word);
      var lead := val / power;
      var rest := val - lead * power;
      ThaiSpelled(lead);
      if rest > 0 {
        ThaiSpelled(rest);
      }
      assert ConvertNnn(lead) == ThaiNumber(lead) == [Digit(lead)];
      SpelledConcat([Digit(lead), word], if rest > 0 then ThaiNumber(rest) else []);
      assert [Digit(lead)] + [word] == [Digit(lead), word];
    } else if val >= MILLION {
      var mod, rem := val % MILLION, val / MILLION;
      ThaiSpelled(rem);
      if mod > 0 {
        ThaiSpelled(mod);
      }
      SpelledConcat(ThaiNumber(rem), [Lan]);
      SpelledConcat(ThaiNumber(rem) + [Lan], if mod > 0 then ThaiNumber(mod) else []);
    }
  }

  lemma DigitSpelled(d: nat, word: Word)
    requires d < 10 && NumberWord(word) && !word.Digit?
    ensures Spelled([Digit(d), word]) && Spelled([])
  {}

  lemma SpelledConcat(x: seq<Word>, z: seq<Word>)
    requires Spelled(x) && Spelled(z)
    ensures Spelled(x + z)
  {}

  /* ---- how numbers are said ---- */

  /** Two words one after the other: a ten is not one or two tens but plain, or a special two;
      a one after a ten is special; and neither special word stands anywhere else. */
  predicate SaidAfter(v: Word, w: Word) {
    && (w == Sip ==> v != Digit(1) && v != Digit(2))
    && (v == Sip ==> w != Digit(1))
    && (w == Et ==> v == Sip)
    && (v == Yi ==> w == Sip)
  }

  ghost predicate Said(words: seq<Word>) {
    && words != [] && words[0] != Et && words[|words| - 1] != Yi
    && forall k :: 0 < k < |words| ==> SaidAfter(words[k - 1], words[k])
  }

  lemma SaidConcat(x: seq<Word>, z: seq<Word>)
    requires Said(x) && z != [] && (forall k :: 0 < k < |z| ==> SaidAfter(z[k - 1], z[k]))
    requires z[|z| - 1] != Yi && SaidAfter(x[|x| - 1], z[0])
    ensures Said(x + z)
  {
    var words := x + z;
    forall k | 0 < k < |words|
      ensures SaidAfter(words[k - 1], words[k])
    {
      if k > |x| {
        assert words[k - 1] == z[k - 1 - |x|] && words[k] == z[k - |x|];
      }
    }
  }

  predicate Power(w: Word) {
    w.Roi? || w.Pan? || w.Muen? || w.Saen? || w.Lan?
  }

  /** A power, and possibly more after it. */
  lemma SaidPower(x: seq<Word>, word: Word, tail: seq<Word>)
    requires Said(x) && Power(word) && (tail == [] || Said(tail))
    ensures Said(x + [word] + tail)
  {
    SaidConcat(x, [word]);
    if tail == [] {
      assert x + [word] + tail == x + [word];
    } else {
      SaidConcat(x + [word], tail);
    }
  }

  lemma NnSaid(val: nat)
    requires val < 100
    ensures Said(ConvertNn(val))
  {
    if val >= 10 {
      var t := val / 10;
      var ten := if t == 1 then [Sip] else if t == 2 then [Yi, Sip] else [Digit(t), Sip];
      assert Said(ten);
      if val % 10 != 0 {
        SaidConcat(ten, [if val % 10 == 1 then Et else Digit(val % 10)]);
      }
    }
  }

  /** Every number is said that way. */
  lemma {:induction false} ThaiSaid(val: nat)
    ensures Said(ThaiNumber(val))
    decreases val
  {
    if val < 100 {
      NnSaid(val);
    } else {
      hide Said;
      if val < MILLION {
        var (word, power) := Denominator(val);
        LeadingDigit(val, power);
        var lead := val / power;
        var rest := val - lead * power;
        ThaiSaid(lead);
        if rest > 0 {
          ThaiSaid(rest);
        }
        assert ConvertNnn(lead) == ThaiNumber(lead);
        SaidPower(ThaiNumber(lead), word, if rest > 0 then ThaiNumber(rest) else []);
      } else {
        var mod, rem := val % MILLION, val / MILLION;
        ThaiSaid(rem);
        if mod > 0 {
          ThaiSaid(mod);
        }
        SaidPower(ThaiNumber(rem), Lan, if mod > 0 then ThaiNumber(mod) else []);
      }
    }
  }

  /** Reads an amount: the number before the unit name, and the one after it. */
  function ReadAmount(words: seq<Word>): nat {
    var k := UnitAt(words);
    100 * ReadNumber(words[..k]) + ReadNumber(words[k..])
  }

  function UnitAt(words: seq<Word>): (k: nat)
    ensures k <= |words|
  {
    if words == [] || words[0] == UnitName then 0 else 1 + UnitAt(words[1..])
  }

  lemma {:induction false} UnitAfter(number: seq<Word>, rest: seq<Word>)
    requires Spelled(number)
    ensures UnitAt(number + [UnitName] + rest) == |number|
  {
    var words := number + [UnitName] + rest;
    if number != [] {
      assert words[1..] == number[1..] + [UnitName] + rest;
      UnitAfter(number[1..], rest);
    }
  }

  lemma AmountReads(cents: nat)
    ensures ReadAmount(AmountWords(cents)) == cents
  {
    hide ThaiNumber, ReadWords;
    var number := ThaiNumber(cents / 100);
    var rest := if cents % 100 == 0 then [Exactly] else [Space] + ThaiNumber(cents % 100) + [CentsName];
    var words := AmountWords(cents);
    ThaiSpelled(cents / 100);
    UnitAfter(number, rest);
    ThaiRoundTrip(cents / 100);
    assert words[..|number|] == number && words[|number|..] == [UnitName] + rest;
    var s := Reading(0, 0, None);
    ReadConcat(s, [UnitName], rest);
    ReadOne(s, UnitName);
    if cents % 100 == 0 {
      ReadOne(s, Exactly);
    } else {
      var small := ThaiNumber(cents % 100);
      ReadConcat(s, [Space] + small, [CentsName]);
      ReadConcat(s, [Space], small);
      ReadOne(s, Space);
      ReadOne(ReadWords(s, small), CentsName);
      ThaiRoundTrip(cents % 100);
    }
  }

  /** Round trip of amounts: for any currency the text of an amount, character by
      character, determines the amount. */
  lemma AmountRoundTrip(cur: Currency, cents: nat)
    ensures ReadAmount(ReadText(cur, AmountToText(cur, cents))) == cents
  {
    ThaiSpelled(cents / 100);
    ThaiSpelled(cents % 100);
    SpellingReads(cur, AmountWords(cents));
    AmountReads(cents);
  }

  /** Distinct amounts print distinct texts. */
  lemma AmountTextInjective(cur: Currency, x: nat, y: nat)
    requires AmountToText(cur, x) == AmountToText(cur, y)
    ensures x == y
  {
    AmountRoundTrip(cur, x);
    AmountRoundTrip(cur, y);
  }
}
