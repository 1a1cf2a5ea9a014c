/**
 * The labelling shared by the application's backed enums: a case name in UPPER_SNAKE form becomes a
 * display label, and an enum's cases become the `value => label` table the console menus show.
 */
module EnumTrait {
  import opened Wrappers
  import opened Ascii

  /** One case of a backed enum: its declared name and its integer backing value. */
  datatype EnumCase = EnumCase(name: string, value: int)

  /**
   * Title casing as mb_convert_case does it on ASCII text: a letter that follows a letter is put in
   * lower case, any other letter in upper case; digits and '_' are kept and end the current word.
   * `inWord` says whether the character before `s` was a letter.
   */
  function TitleFrom(s: string, inWord: bool): (r: string)
    ensures |r| == |s|
  {
    if |s| == 0 then []
    else
      var c := s[0];
      [if !IsLetter(c) then c else if inWord then ToLower(c) else ToUpper(c)]
        + TitleFrom(s[1..], IsLetter(c))
  }

  function Title(s: string): (r: string)
    ensures |r| == |s|
  {
    TitleFrom(s, false)
  }

  /** Every occurrence of `from` replaced by `to`. */
  function Replace(s: string, from: char, to: char): (r: string)
    ensures |r| == |s|
  {
    if |s| == 0 then [] else [if s[0] == from then to else s[0]] + Replace(s[1..], from, to)
  }

  /** Whether the letter at position i of `name` begins a word of the label. */
  predicate StartsWord(name: string, i: nat)
    requires i < |name|
  {
    i == 0 || !IsLetter(name[i - 1])
  }

  /** The label's character at position i: word starts upper, the rest lower, '_' a space. */
  function LabelChar(name: string, i: nat): char
    requires i < |name|
  {
    var c := name[i];
    if c == '_' then ' '
    else if !IsLetter(c) then c
    else if StartsWord(name, i) then ToUpper(c)
    else ToLower(c)
  }

  /** getLabel, character by character. */
  function Label(name: string): (r: string)
    ensures |r| == |name|
  {
    seq(|name|, i requires 0 <= i < |name| => LabelChar(name, i))
  }

  lemma {:induction false} TitleFromAt(s: string, inWord: bool, i: nat)
    requires i < |s|
    ensures TitleFrom(s, inWord)[i] ==
      if !IsLetter(s[i]) then s[i]
      else if (if i == 0 then inWord else IsLetter(s[i - 1])) then ToLower(s[i])
      else ToUpper(s[i])
  {
    if i > 0 {
      TitleFromAt(s[1..], IsLetter(s[0]), i - 1);
    }
  }

  lemma {:induction false} ReplaceAt(s: string, from: char, to: char, i: nat)
    requires i < |s|
    ensures Replace(s, from, to)[i] == if s[i] == from then to else s[i]
  {
    if i > 0 {
      ReplaceAt(s[1..], from, to, i - 1);
    }
  }

  /** getLabel as written: mb_convert_case to title case, then every '_' replaced by a space. */
  lemma LabelIsTitleCaseThenReplace(name: string)
    ensures Label(name) == Replace(Title(name), '_', ' ')
  {
    forall i | 0 <= i < |name| ensures Label(name)[i] == Replace(Title(name), '_', ' ')[i] {
      TitleFromAt(name, false, i);
      ReplaceAt(Title(name), '_', ' ', i);
    }
  }

  /** A label never contains '_'. */
  lemma LabelHasNoUnderscore(name: string)
    ensures '_' !in Label(name)
  {
    forall i | 0 <= i < |name| ensures Label(name)[i] != '_' {
    }
  }

  /** A label is proved equal to an expected string by checking it character by character. */
  lemma LabelIs(name: string, expected: string)
    requires |expected| == |name|
    requires forall i :: 0 <= i < |name| ==> LabelChar(name, i) == expected[i]
    ensures Label(name) == expected
  {
  }

  /**
   * The label of names joined by '_' is the labels of the parts joined by a space: each part is
   * title-cased on its own, as if the name were split at its underscores.
   */
  lemma LabelJoin(a: string, b: string)
    ensures Label(a + "_" + b) == Label(a) + " " + Label(b)
  {
    var n := a + "_" + b;
    var r := Label(a) + " " + Label(b);
    forall i | 0 <= i < |n| ensures Label(n)[i] == r[i] {
      if i < |a| {
        assert n[i] == a[i];
        assert i > 0 ==> n[i - 1] == a[i - 1];
      } else if i > |a| {
        var k := i - |a| - 1;
        assert n[i] == b[k];
        assert n[i - 1] == if k == 0 then '_' else b[k - 1];
      }
    }
  }

  /** The documented example: TEST_VALUE_1 is labelled "Test Value 1". */
  lemma TestValueLabel()
    ensures Label("TEST_VALUE_1") == "Test Value 1"
  {
    LabelIs("TEST_VALUE_1", "Test Value 1");
  }

  predicate DistinctValues(cases: seq<EnumCase>)
  {
    forall i, j :: 0 <= i < j < |cases| ==> cases[i].value != cases[j].value
  }

  /** The `value => label` table of a list of cases, one entry per case in declaration order. */
  function Table(cases: seq<EnumCase>): (t: seq<(int, string)>)
    ensures |t| == |cases|
    ensures forall i :: 0 <= i < |cases| ==> t[i] == (cases[i].value, Label(cases[i].name))
  {
    if |cases| == 0 then [] else [(cases[0].value, Label(cases[0].name))] + Table(cases[1..])
  }

  /** The label filed under `key`, if the table has one. */
  function LabelFor(table: seq<(int, string)>, key: int): (r: Option<string>)
    ensures r.Some? <==> exists i :: 0 <= i < |table| && table[i].0 == key
    ensures r.Some? ==> exists i :: 0 <= i < |table| && table[i] == (key, r.value)
  {
    if |table| == 0 then None
    else if table[0].0 == key then Some(table[0].1)
    else
      var r := LabelFor(table[1..], key);
      assert forall i :: 0 <= i < |table| - 1 ==> table[1..][i] == table[i + 1];
      r
  }

  /** In a table with distinct keys, looking a key up finds the entry filed under it. */
  lemma LabelForAt(table: seq<(int, string)>, i: nat)
    requires i < |table|
    requires forall j, k :: 0 <= j < k < |table| ==> table[j].0 != table[k].0
    ensures LabelFor(table, table[i].0) == Some(table[i].1)
  {
  }

  /** The table of an enum has one key per case value, the keys being exactly the case values. */
  lemma TableKeys(cases: seq<EnumCase>)
    requires DistinctValues(cases)
    ensures forall j, k :: 0 <= j < k < |Table(cases)| ==> Table(cases)[j].0 != Table(cases)[k].0
    ensures forall v :: LabelFor(Table(cases), v).Some? <==> exists i :: 0 <= i < |cases| && cases[i].value == v
  {
  }

  /** Looking up a case's value in its enum's table gives that case's label. */
  lemma LabelForCase(cases: seq<EnumCase>, i: nat)
    requires DistinctValues(cases) && i < |cases|
    ensures LabelFor(Table(cases), cases[i].value) == Some(Label(cases[i].name))
  {
    TableKeys(cases);
    LabelForAt(Table(cases), i);
  }

  /**
   * toArray, with the enum's own cases as input: the table is filled entry by entry; since an enum's
   * backing values are distinct, every assignment adds a new key at the end.
   */
  method ToArray(cases: seq<EnumCase>) returns (table: seq<(int, string)>)
    requires DistinctValues(cases)
    ensures table == Table(cases)
    ensures forall i, j :: 0 <= i < j < |table| ==> table[i].0 != table[j].0
  {
    table := [];
    for k := 0 to |cases|
      invariant table == Table(cases[..k])
    {
      assert cases[..k + 1] == cases[..k] + [cases[k]];
      TableAppend(cases[..k], cases[k]);
      table := table + [(cases[k].value, Label(cases[k].name))];
    }
    assert cases[..|cases|] == cases;
  }

  lemma {:induction false} TableAppend(cases: seq<EnumCase>, c: EnumCase)
    ensures Table(cases + [c]) == Table(cases) + [(c.value, Label(c.name))]
  {
    var t := Table(cases + [c]);
    assert |t| == |cases| + 1;
    forall i | 0 <= i < |t| ensures t[i] == (Table(cases) + [(c.value, Label(c.name))])[i] {
      assert (cases + [c])[i] == if i < |cases| then cases[i] else c;
    }
  }
}
