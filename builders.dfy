/**
 * The per-row controls of the status table: a two-option radio group and a
 * date picker, both tagged with the row's index through their name and ids
 * ("status-3", "complete-3", "na-3", "date-3"). Only what identifies the
 * controls is kept; the DOM element kinds and CSS classes are not modelled.
 */
module Builders {

  /** The decimal digit for `d`. */
  function DigitChar(d: nat): (c: char)
    requires d < 10
    ensures '0' <= c <= '9'
  {
    (('0' as int) + d) as char
  }

  /**
   * The decimal form a template literal gives a row index: no sign, no
   * leading zero except for 0 itself.
   */
  function NatToString(n: nat): (r: string)
    ensures |r| >= 1
    ensures n >= 10 ==> |r| >= 2
    ensures forall k :: 0 <= k < |r| ==> '0' <= r[k] <= '9'
    ensures n > 0 ==> r[0] != '0'
  {
    if n < 10 then [DigitChar(n)] else NatToString(n / 10) + [DigitChar(n % 10)]
  }

  /** Every character of `s` is a decimal digit. */
  predicate IsDigits(s: string)
  {
    forall k :: 0 <= k < |s| ==> '0' <= s[k] <= '9'
  }

  /** The number a string of decimal digits spells, most significant digit first. */
  function DecimalValue(s: string): (v: nat)
    requires IsDigits(s)
  {
    if s == [] then 0
    else DecimalValue(s[..|s| - 1]) * 10 + ((s[|s| - 1] as int) - ('0' as int))
  }

  /** The digits of a row index spell that index: `${i}` is the decimal form of `i`. */
  lemma {:induction false} NatToStringValue(n: nat)
    ensures DecimalValue(NatToString(n)) == n
  {
    var s := NatToString(n);
    if n >= 10 {
      assert s[..|s| - 1] == NatToString(n / 10);
      NatToStringValue(n / 10);
    }
  }

  /** Different indexes are written differently. */
  lemma {:induction false} NatToStringInjective(m: nat, n: nat)
    requires NatToString(m) == NatToString(n)
    ensures m == n
    decreases m
  {
    var sm, sn := NatToString(m), NatToString(n);
    if m < 10 && n < 10 {
      assert DigitChar(m) == sm[0] == sn[0] == DigitChar(n);
    } else if m >= 10 && n >= 10 {
      assert DigitChar(m % 10) == sm[|sm| - 1] == sn[|sn| - 1] == DigitChar(n % 10);
      assert NatToString(m / 10) == sm[..|sm| - 1] == sn[..|sn| - 1] == NatToString(n / 10);
      NatToStringInjective(m / 10, n / 10);
    }
  }

  /** One option of a radio group: its element id and its visible caption. */
  datatype RadioOption = RadioOption(id: string, caption: string)

  /** A radio group: the shared `name` of its inputs and its options, in order. */
  datatype RadioGroup = RadioGroup(name: string, options: seq<RadioOption>)

  /** A date input, identified by its element id. */
  datatype DatePicker = DatePicker(id: string)

  /**
   * `s` reads `prefix` followed by index `i` written in decimal, with no
   * leading zero: the way the widget names a control of row `i`.
   */
  predicate SpellsIndex(s: string, prefix: string, i: nat)
  {
    var n := |prefix|;
    |s| > n && s[..n] == prefix && IsDigits(s[n..]) && DecimalValue(s[n..]) == i
      && (s[n] == '0' ==> |s| == n + 1)
  }

  /** `${prefix}${i}` spells index `i` after `prefix`. */
  lemma PrefixedIndex(prefix: string, i: nat)
    ensures SpellsIndex(prefix + NatToString(i), prefix, i)
  {
    var s := prefix + NatToString(i);
    assert s[..|prefix|] == prefix;
    assert s[|prefix|..] == NatToString(i);
    NatToStringValue(i);
  }

  /** buildStatusRadios: "Complete" and "Not Applicable", grouped under the row's name. */
  function BuildStatusRadios(rowIndex: nat): RadioGroup
  {
    var tag := NatToString(rowIndex);
    RadioGroup("status-" + tag,
      [RadioOption("complete-" + tag, "Complete"),
       RadioOption("na-" + tag, "Not Applicable")])
  }

  /** buildDatePicker: a date input tagged with the row's index. */
  function BuildDatePicker(rowIndex: nat): DatePicker
  {
    DatePicker("date-" + NatToString(rowIndex))
  }

  /**
   * The radio group of row `i` is named `status-i` and offers "Complete"
   * (id `complete-i`) and "Not Applicable" (id `na-i`), in that order.
   */
  lemma StatusRadiosSpellsIndex(i: nat)
    ensures SpellsIndex(BuildStatusRadios(i).name, "status-", i)
    ensures |BuildStatusRadios(i).options| == 2
    ensures BuildStatusRadios(i).options[0].caption == "Complete"
    ensures SpellsIndex(BuildStatusRadios(i).options[0].id, "complete-", i)
    ensures BuildStatusRadios(i).options[1].caption == "Not Applicable"
    ensures SpellsIndex(BuildStatusRadios(i).options[1].id, "na-", i)
  {
    PrefixedIndex("status-", i);
    PrefixedIndex("complete-", i);
    PrefixedIndex("na-", i);
  }

  /** The date picker of row `i` has id `date-i`. */
  lemma DatePickerSpellsIndex(i: nat)
    ensures SpellsIndex(BuildDatePicker(i).id, "date-", i)
  {
    PrefixedIndex("date-", i);
  }

  /** The element ids the controls of row `rowIndex` put in the document, in order. */
  function RowElementIds(rowIndex: nat): seq<string>
  {
    var radios := BuildStatusRadios(rowIndex);
    [radios.options[0].id, radios.options[1].id, BuildDatePicker(rowIndex).id]
  }

  /** Two strings with distinct first characters differ whatever follows. */
  lemma PrefixesDiffer(p: string, q: string, a: string, b: string)
    requires |p| > 0 && |q| > 0 && p[0] != q[0]
    ensures p + a != q + b
  {
    assert (p + a)[0] == p[0];
    assert (q + b)[0] == q[0];
  }

  /** A common prefix can be cancelled. */
  lemma PrefixCancel(p: string, a: string, b: string)
    requires p + a == p + b
    ensures a == b
  {
    assert a == (p + a)[|p|..];
    assert b == (p + b)[|p|..];
  }

  /** The three ids of one row are pairwise distinct. */
  lemma RowElementIdsDistinct(i: nat)
    ensures forall x, y :: 0 <= x < y < 3 ==> RowElementIds(i)[x] != RowElementIds(i)[y]
  {
    var tag := NatToString(i);
    PrefixesDiffer("complete-", "na-", tag, tag);
    PrefixesDiffer("complete-", "date-", tag, tag);
    PrefixesDiffer("na-", "date-", tag, tag);
  }

  /**
   * Rows with different indexes share no element id and no radio-group
   * name: the radio groups of two rows never interfere, and every id in
   * the table is unique.
   */
  lemma DistinctRowsDistinctControls(i: nat, j: nat)
    requires i != j
    ensures BuildStatusRadios(i).name != BuildStatusRadios(j).name
    ensures forall x, y :: 0 <= x < 3 && 0 <= y < 3 ==> RowElementIds(i)[x] != RowElementIds(j)[y]
  {
    var ti, tj := NatToString(i), NatToString(j);
    if ti == tj {
      NatToStringInjective(i, j);
    }
    var prefixes := ["complete-", "na-", "date-"];
    assert forall x :: 0 <= x < 3 ==> RowElementIds(i)[x] == prefixes[x] + ti;
    assert forall y :: 0 <= y < 3 ==> RowElementIds(j)[y] == prefixes[y] + tj;
    forall x, y | 0 <= x < 3 && 0 <= y < 3
      ensures RowElementIds(i)[x] != RowElementIds(j)[y]
    {
      if x == y {
        if prefixes[x] + ti == prefixes[x] + tj {
          PrefixCancel(prefixes[x], ti, tj);
        }
      } else {
        PrefixesDiffer(prefixes[x], prefixes[y], ti, tj);
      }
    }
    if "status-" + ti == "status-" + tj {
      PrefixCancel("status-", ti, tj);
    }
  }
}
