/** `formatEnumLabel` of apps/web/src/lib/format.ts: an enumeration value
    such as `SERVICE_PROVIDER` turned into the label `Service Provider`.
    Case mapping covers the ASCII letters only. */
module Format {
  import opened Wrappers
  import opened Strings

  function LowerChar(c: char): char {
    if 'A' <= c <= 'Z' then ((c as int) + 32) as char else c
  }

  function UpperChar(c: char): char {
    if 'a' <= c <= 'z' then ((c as int) - 32) as char else c
  }

  /** `s.toLowerCase()`: every character lower-cased in place. */
  function ToLowerCase(s: string): (r: string)
    ensures |r| == |s|
    ensures forall i :: 0 <= i < |s| ==> r[i] == LowerChar(s[i])
  {
    if |s| == 0 then "" else [LowerChar(s[0])] + ToLowerCase(s[1..])
  }

  /** `part.charAt(0).toUpperCase() + part.slice(1)`; an empty part stays empty. */
  function Capitalize(part: string): string {
    if |part| == 0 then "" else [UpperChar(part[0])] + part[1..]
  }

  /** `parts.map(Capitalize)` */
  function CapitalizeAll(parts: seq<string>): (r: seq<string>)
    ensures |r| == |parts|
    ensures forall i :: 0 <= i < |parts| ==> r[i] == Capitalize(parts[i])
  {
    if |parts| == 0 then [] else [Capitalize(parts[0])] + CapitalizeAll(parts[1..])
  }

  /** `formatEnumLabel(value)`: `''` for an absent or empty value, otherwise
      lower-case, split on `_`, capitalize each part, join with spaces. */
  function FormatEnumLabel(value: Option<string>): string {
    if value.None? || value.value == "" then ""
    else Join(CapitalizeAll(Split(ToLowerCase(value.value), '_')), ' ')
  }

  /** The label of a lower-cased string read left to right: `_` becomes a
      space, and a character is upper-cased exactly when it starts a part. */
  function Label(t: string, atStart: bool): string {
    if |t| == 0 then ""
    else if t[0] == '_' then " " + Label(t[1..], true)
    else [if atStart then UpperChar(t[0]) else t[0]] + Label(t[1..], false)
  }

  /** The parts of a split with all but the first capitalized. */
  function CapitalizeRest(parts: seq<string>): seq<string>
    requires |parts| >= 1
  {
    [parts[0]] + CapitalizeAll(parts[1..])
  }

  /** Splitting, capitalizing every part and joining is the left-to-right label. */
  lemma {:induction false} SplitJoinIsLabel(t: string)
    ensures Join(CapitalizeAll(Split(t, '_')), ' ') == Label(t, true)
    ensures Join(CapitalizeRest(Split(t, '_')), ' ') == Label(t, false)
  {
    if |t| > 0 {
      var rest := Split(t[1..], '_');
      SplitJoinIsLabel(t[1..]);
      if t[0] == '_' {
        var capped := CapitalizeAll(rest);
        assert Split(t, '_') == [""] + rest;
        assert CapitalizeAll([""] + rest) == [""] + capped by {
          assert ([""] + rest)[1..] == rest;
        }
        assert CapitalizeRest([""] + rest) == [""] + capped by {
          assert ([""] + rest)[1..] == rest;
        }
        JoinUnfold("", capped, ' ');
      } else {
        var c := t[0];
        var tail := CapitalizeAll(rest[1..]);
        var parts := [[c] + rest[0]] + rest[1..];
        assert Split(t, '_') == parts;
        assert parts[1..] == rest[1..];
        assert Capitalize([c] + rest[0]) == [UpperChar(c)] + rest[0] by {
          assert ([c] + rest[0])[1..] == rest[0];
        }
        assert CapitalizeAll(parts) == [[UpperChar(c)] + rest[0]] + tail;
        assert CapitalizeRest(parts) == [[c] + rest[0]] + tail;
        assert CapitalizeRest(rest) == [rest[0]] + tail;
        JoinConsHead(UpperChar(c), rest[0], tail, ' ');
        JoinConsHead(c, rest[0], tail, ' ');
      }
    }
  }

  /** The label character by character: same length, `_` becomes a space,
      the first character of a part is upper-cased, the others are kept. */
  lemma {:induction false} LabelAt(t: string, atStart: bool)
    ensures |Label(t, atStart)| == |t|
    ensures forall i :: 0 <= i < |t| ==> Label(t, atStart)[i] == LabelChar(t, atStart, i)
  {
    if |t| > 0 {
      var rest := Label(t[1..], t[0] == '_');
      LabelAt(t[1..], t[0] == '_');
      var r := Label(t, atStart);
      assert r == [LabelChar(t, atStart, 0)] + rest;
      forall i | 0 < i < |t|
        ensures r[i] == LabelChar(t, atStart, i)
      {
        assert r[i] == rest[i - 1];
        LabelCharShift(t, atStart, i);
      }
    }
  }

  /** Character i of the label of t: a space for `_`, upper-cased at the start of a part. */
  function LabelChar(t: string, atStart: bool, i: nat): char
    requires i < |t|
  {
    if t[i] == '_' then ' '
    else if (if i == 0 then atStart else t[i - 1] == '_') then UpperChar(t[i])
    else t[i]
  }

  lemma LabelCharShift(t: string, atStart: bool, i: nat)
    requires 0 < i < |t|
    ensures LabelChar(t[1..], t[0] == '_', i - 1) == LabelChar(t, atStart, i)
  {
    assert t[1..][i - 1] == t[i];
    if i > 1 {
      assert t[1..][i - 2] == t[i - 1];
    }
  }

  /** Upper-casing after lower-casing is upper-casing, and neither creates nor removes a `_`. */
  lemma CaseFacts(c: char)
    ensures UpperChar(LowerChar(c)) == UpperChar(c)
    ensures LowerChar(c) == '_' <==> c == '_'
    ensures UpperChar(c) != '_' && LowerChar(c) != '_' <==> c != '_'
  {
  }

  /** Character i of the label of a non-empty value s. */
  function EnumLabelChar(s: string, i: nat): char
    requires i < |s|
  {
    if s[i] == '_' then ' '
    else if i == 0 || s[i - 1] == '_' then UpperChar(s[i])
    else LowerChar(s[i])
  }

  /** `formatEnumLabel` of a non-empty value, character by character: the
      output is as long as the input, each `_` becomes exactly one space, the
      first character of each part is upper-cased and the others lower-cased,
      so no `_` is left. */
  lemma FormatEnumLabelAt(s: string)
    requires s != ""
    ensures |FormatEnumLabel(Some(s))| == |s|
    ensures forall i :: 0 <= i < |s| ==> FormatEnumLabel(Some(s))[i] == EnumLabelChar(s, i)
    ensures forall i :: 0 <= i < |s| ==> FormatEnumLabel(Some(s))[i] != '_'
  {
    var t := ToLowerCase(s);
    var r := FormatEnumLabel(Some(s));
    SplitJoinIsLabel(t);
    LabelAt(t, true);
    assert r == Label(t, true);
    forall i | 0 <= i < |s|
      ensures r[i] == EnumLabelChar(s, i)
      ensures r[i] != '_'
    {
      CaseFacts(s[i]);
      if i > 0 {
        CaseFacts(s[i - 1]);
      }
      assert r[i] == LabelChar(t, true, i);
    }
  }

  /** A string with the label's length and characters is the label. */
  lemma LabelMatches(s: string, expected: string)
    requires s != "" && |expected| == |s|
    requires forall i :: 0 <= i < |s| ==> expected[i] == EnumLabelChar(s, i)
    ensures FormatEnumLabel(Some(s)) == expected
  {
    FormatEnumLabelAt(s);
  }

  /** An absent or empty value gives the empty label. */
  lemma FormatEnumLabelEmpty()
    ensures FormatEnumLabel(None) == ""
    ensures FormatEnumLabel(Some("")) == ""
  {
  }

  /** The role value `SERVICE_PROVIDER` reads `Service Provider`. */
  lemma ServiceProviderLabel(s: string, expected: string)
    requires s == "SERVICE_PROVIDER" && expected == "Service Provider"
    ensures FormatEnumLabel(Some(s)) == expected
  {
    LabelMatches(s, expected);
  }
}
