/**
 utils/string.go: ValidateSortField, the recogniser of sort orders. The grammar it accepts is
 given by a printer of key lists; the recogniser is proved to accept exactly what that prints.
 */
module SortField {
  import opened Text
  import opened SnakeCase

  datatype Direction = Unspecified | Asc | Desc

  datatype Key = Key(name: string, dir: Direction)

  datatype SortError =
    | NotSupported
    | InvalidFormat(field: string)
    | InvalidName(name: string, validFields: seq<string>)

  // ---------- the grammar ----------

  function Suffix(d: Direction): string {
    match d
    case Unspecified => ""
    case Asc => " asc"
    case Desc => " desc"
  }

  function PrintKey(k: Key): string {
    k.name + Suffix(k.dir)
  }

  function PrintEach(keys: seq<Key>): (r: seq<string>)
    ensures |r| == |keys|
    ensures forall i :: 0 <= i < |keys| ==> r[i] == PrintKey(keys[i])
  {
    seq(|keys|, i requires 0 <= i < |keys| => PrintKey(keys[i]))
  }

  function PrintKeys(keys: seq<Key>): string {
    Join(PrintEach(keys), ",")
  }

  predicate Allowed(fields: map<string, bool>, name: string) {
    name in fields && fields[name]
  }

  ghost predicate IsKeyList(fields: map<string, bool>, keys: seq<Key>, text: string) {
    && |keys| > 0
    && PrintKeys(keys) == text
    && forall k :: k in keys ==> k.name in fields && fields[k.name] && ' ' !in k.name && ',' !in k.name
  }

  /** An order text is empty, or sorting is supported and the text lists allowed fields with optional directions. */
  ghost predicate Grammar(fields: Option<map<string, bool>>, text: string) {
    text == "" || (fields.Some? && exists keys :: IsKeyList(fields.value, keys, text))
  }

  // ---------- the recogniser ----------

  predicate FormatOk(field: string) {
    var orderInfo := Split(field, " ");
    |orderInfo| <= 2 && (|orderInfo| == 2 ==> orderInfo[1] == "desc" || orderInfo[1] == "asc")
  }

  predicate FieldOk(fields: map<string, bool>, field: string) {
    FormatOk(field) && Allowed(fields, Split(field, " ")[0])
  }

  ghost predicate FieldsOk(fields: map<string, bool>, parts: seq<string>) {
    forall j :: 0 <= j < |parts| ==> FieldOk(fields, parts[j])
  }

  /** The error names the first field that is wrong, and a wrong name comes with every known name. */
  ghost predicate Explains(err: SortError, fields: map<string, bool>, parts: seq<string>, i: nat) {
    && i < |parts|
    && (forall j :: 0 <= j < i ==> FieldOk(fields, parts[j]))
    && match err
       case NotSupported => false
       case InvalidFormat(field) => field == parts[i] && !FormatOk(field)
       case InvalidName(name, known) =>
         && FormatOk(parts[i])
         && name == Split(parts[i], " ")[0]
         && (name in fields ==> !fields[name])
         && multiset(known) == multiset(fields.Keys)
  }

  method ValidateSortField(validMapFields: Option<map<string, bool>>, sortStr: string) returns (err: Option<SortError>)
    ensures err.None? <==> Grammar(validMapFields, TrimSpace(sortStr))
    ensures err == Some(NotSupported) <==> validMapFields.None? && TrimSpace(sortStr) != ""
    ensures err.Some? && validMapFields.Some? ==>
              exists i :: Explains(err.value, validMapFields.value, Split(TrimSpace(sortStr), ","), i)
  {
    hide Split, TrimSpace, IsKeyList;
    var text := TrimSpace(sortStr);
    if |text| == 0 {
      return None;
    }
    if validMapFields.None? {
      return Some(NotSupported);
    }
    var fields := validMapFields.value;
    GrammarByFields(fields, text);
    hide Grammar;
    var parts := Split(text, ",");
    for i := 0 to |parts|
      invariant forall j :: 0 <= j < i ==> FieldOk(fields, parts[j])
    {
      var orderInfo := Split(parts[i], " ");
      if |orderInfo| > 2 || (|orderInfo| == 2 && orderInfo[1] != "desc" && orderInfo[1] != "asc") {
        assert !FieldOk(fields, parts[i]);
        err := Some(InvalidFormat(parts[i]));
        assert Explains(err.value, fields, parts, i);
        return;
      }
      if !Allowed(fields, orderInfo[0]) {
        assert !FieldOk(fields, parts[i]);
        var known := ListNames(fields);
        err := Some(InvalidName(orderInfo[0], known));
        assert Explains(err.value, fields, parts, i);
        return;
      }
    }
    return None;
  }

  /** The names in the map, each once, in whatever order the iteration yields. */
  method ListNames(fields: map<string, bool>) returns (validFields: seq<string>)
    ensures multiset(validFields) == multiset(fields.Keys)
  {
    validFields := [];
    var rest := fields.Keys;
    while rest != {}
      invariant rest <= fields.Keys
      invariant multiset(validFields) == multiset(fields.Keys - rest)
      decreases rest
    {
      var f :| f in rest;
      assert fields.Keys - (rest - {f}) == (fields.Keys - rest) + {f};
      validFields := validFields + [f];
      rest := rest - {f};
    }
    assert fields.Keys - rest == fields.Keys;
  }

  // ---------- the recogniser accepts the grammar ----------

  /** Reads one field back. */
  function ParseKey(field: string): Key {
    var orderInfo := Split(field, " ");
    Key(orderInfo[0], if |orderInfo| < 2 then Unspecified else if orderInfo[1] == "asc" then Asc else Desc)
  }

  function ParseEach(parts: seq<string>): (r: seq<Key>)
    ensures |r| == |parts|
    ensures forall i :: 0 <= i < |parts| ==> r[i] == ParseKey(parts[i])
  {
    seq(|parts|, i requires 0 <= i < |parts| => ParseKey(parts[i]))
  }

  function ParseKeys(sortStr: string): seq<Key> {
    var text := TrimSpace(sortStr);
    if text == "" then [] else ParseEach(Split(text, ","))
  }

  lemma ParsePrintKey(k: Key)
    requires ' ' !in k.name
    ensures FormatOk(PrintKey(k)) && ParseKey(PrintKey(k)) == k
    ensures Split(PrintKey(k), " ")[0] == k.name
  {
    hide Split;
    if k.dir == Unspecified {
      assert PrintKey(k) == k.name;
      SplitWithoutChar(k.name, ' ');
    } else {
      var word := if k.dir == Asc then "asc" else "desc";
      assert PrintKey(k) == k.name + [' '] + word;
      SplitAtChar(k.name, ' ', word);
      SplitWithoutChar(word, ' ');
      assert Split(PrintKey(k), " ") == [k.name, word];
    }
  }

  lemma PrintParseKey(field: string)
    requires FormatOk(field)
    ensures PrintKey(ParseKey(field)) == field && ' ' !in ParseKey(field).name
  {
    hide Split, Join;
    var orderInfo := Split(field, " ");
    SplitParts(field, " ");
    SplitPiecesLackChar(field, ' ');
    if |orderInfo| == 2 {
      assert orderInfo == [orderInfo[0]] + [orderInfo[1]];
      JoinCons(orderInfo[0], [orderInfo[1]], " ");
      JoinOne(orderInfo[1], " ");
    } else {
      assert orderInfo == [orderInfo[0]];
      JoinOne(orderInfo[0], " ");
      assert orderInfo[0] + "" == orderInfo[0];
    }
  }

  /** Printing the keys read from well-formed pieces gives the pieces back. */
  lemma PrintParseEach(parts: seq<string>)
    requires forall p :: p in parts ==> FormatOk(p)
    ensures PrintEach(ParseEach(parts)) == parts
  {
    forall i | 0 <= i < |parts| ensures PrintKey(ParseKey(parts[i])) == parts[i] {
      PrintParseKey(parts[i]);
    }
  }

  lemma PrintKeyLacksComma(k: Key)
    requires ',' !in k.name
    ensures ',' !in PrintKey(k)
  {
  }

  lemma SplitPrintKeys(keys: seq<Key>)
    requires |keys| > 0 && forall k :: k in keys ==> ' ' !in k.name && ',' !in k.name
    ensures Split(PrintKeys(keys), ",") == PrintEach(keys)
    ensures ParseEach(PrintEach(keys)) == keys
  {
    hide Split, Join, Suffix, PrintKey, ParseKey;
    var parts := PrintEach(keys);
    forall i | 0 <= i < |keys| ensures ',' !in parts[i] && ParseKey(parts[i]) == keys[i] {
      ParsePrintKey(keys[i]);
      PrintKeyLacksComma(keys[i]);
    }
    SplitJoin(parts, ',');
  }

  lemma GrammarByFields(fields: map<string, bool>, text: string)
    requires text != ""
    ensures Grammar(Some(fields), text) <==> FieldsOk(fields, Split(text, ","))
  {
    var parts := Split(text, ",");
    if Grammar(Some(fields), text) {
      var keys :| IsKeyList(fields, keys, text);
      SplitPrintKeys(keys);
      forall j | 0 <= j < |parts| ensures FieldOk(fields, parts[j]) {
        ParsePrintKey(keys[j]);
        assert keys[j] in keys;
      }
    }
    if FieldsOk(fields, parts) {
      FieldsMakeKeyList(fields, text);
      assert IsKeyList(Some(fields).value, ParseEach(parts), text);
    }
  }

  lemma FieldsMakeKeyList(fields: map<string, bool>, text: string)
    requires FieldsOk(fields, Split(text, ","))
    ensures IsKeyList(fields, ParseEach(Split(text, ",")), text)
  {
    var parts := Split(text, ",");
    var keys := ParseEach(parts);
    PrintParseEach(parts);
    SplitParts(text, ",");
    SplitPiecesLackChar(text, ',');
    forall j | 0 <= j < |parts|
      ensures Allowed(fields, keys[j].name) && ' ' !in keys[j].name && ',' !in keys[j].name
    {
      PrintParseKey(parts[j]);
      assert parts[j] in parts && parts[j] == keys[j].name + Suffix(keys[j].dir);
    }
  }

  /** The keys read from an accepted order print as that order and are all allowed. */
  lemma AcceptedOrderParses(fields: map<string, bool>, sortStr: string)
    requires Grammar(Some(fields), TrimSpace(sortStr))
    ensures PrintKeys(ParseKeys(sortStr)) == TrimSpace(sortStr)
    ensures forall k :: k in ParseKeys(sortStr) ==>
              k.name in fields && fields[k.name] && ' ' !in k.name && ',' !in k.name
  {
    var text := TrimSpace(sortStr);
    if text != "" {
      GrammarByFields(fields, text);
      FieldsMakeKeyList(fields, text);
    }
  }

  // ---------- printing and reading back ----------

  /** Fails only for lists that print as white space first, or as nothing at all. */
  predicate Printable(keys: seq<Key>) {
    keys == [] || keys[0].name != "" || (keys[0].dir == Unspecified && |keys| > 1)
  }

  predicate PlainName(name: string) {
    ',' !in name && forall c :: c in name ==> !IsSpace(c)
  }

  lemma PlainNameLacksSpace(name: string)
    requires PlainName(name)
    ensures ' ' !in name
  {
  }

  lemma PrintKeyEnds(k: Key)
    requires PlainName(k.name)
    ensures PrintKey(k) != "" ==> !IsSpace(PrintKey(k)[|PrintKey(k)| - 1])
  {
  }

  lemma PrintKeysCons(keys: seq<Key>)
    requires |keys| > 1
    ensures PrintKeys(keys) == PrintKey(keys[0]) + "," + PrintKeys(keys[1..])
  {
    assert PrintEach(keys)[1..] == PrintEach(keys[1..]);
  }

  lemma {:induction false} PrintKeysEnds(keys: seq<Key>)
    requires forall k :: k in keys ==> PlainName(k.name)
    ensures PrintKeys(keys) != "" ==> !IsSpace(PrintKeys(keys)[|PrintKeys(keys)| - 1])
  {
    if |keys| == 1 {
      PrintKeyEnds(keys[0]);
    } else if |keys| > 1 {
      PrintKeysCons(keys);
      PrintKeysEnds(keys[1..]);
    }
  }

  lemma PrintKeysStarts(keys: seq<Key>)
    requires keys != [] && PlainName(keys[0].name)
    ensures Printable(keys) ==> PrintKeys(keys) != "" && !IsSpace(PrintKeys(keys)[0])
    ensures !Printable(keys) ==> PrintKeys(keys) == "" || IsSpace(PrintKeys(keys)[0])
  {
  }

  /** A list of allowed plain names, printed, is accepted and read back unchanged exactly when it is Printable. */
  lemma PrintThenParse(fields: map<string, bool>, keys: seq<Key>)
    requires forall k :: k in keys ==> Allowed(fields, k.name) && PlainName(k.name)
    ensures Grammar(Some(fields), TrimSpace(PrintKeys(keys))) && ParseKeys(PrintKeys(keys)) == keys
       <==> Printable(keys)
  {
    var text := PrintKeys(keys);
    if keys != [] {
      forall k | k in keys ensures ' ' !in k.name {
        PlainNameLacksSpace(k.name);
      }
      PrintKeysStarts(keys);
      PrintKeysEnds(keys);
      if Printable(keys) {
        TrimTrimmed(text);
        SplitPrintKeys(keys);
        assert IsKeyList(fields, keys, text);
      } else if Grammar(Some(fields), TrimSpace(text)) && ParseKeys(text) == keys {
        AcceptedOrderParses(fields, text);
        var i := TrimSpaceCuts(text);
        assert false;
      }
    }
  }

  /** It does fail: the empty name, where a map of fields allows it, sorts as a lone direction and reads back as a name. */
  lemma EmptyNameNotReadBack(fields: map<string, bool>, keys: seq<Key>)
    requires fields == map["" := true] && keys == [Key("", Asc)]
    ensures forall k :: k in keys ==> Allowed(fields, k.name) && PlainName(k.name)
    ensures !(Grammar(Some(fields), TrimSpace(PrintKeys(keys))) && ParseKeys(PrintKeys(keys)) == keys)
  {
    PrintThenParse(fields, keys);
  }

  // ---------- the ORDER text ----------

  function ColumnEach(lower: char -> char, keys: seq<Key>): (r: seq<string>)
    ensures |r| == |keys|
    ensures forall i :: 0 <= i < |keys| ==> r[i] == Snake(lower, keys[i].name) + Suffix(keys[i].dir)
  {
    seq(|keys|, i requires 0 <= i < |keys| => Snake(lower, keys[i].name) + Suffix(keys[i].dir))
  }

  lemma SnakeKey(lower: char -> char, k: Key)
    requires CaseMap(lower)
    ensures Snake(lower, PrintKey(k)) == Snake(lower, k.name) + Suffix(k.dir)
  {
    if k.dir == Unspecified {
      assert PrintKey(k) == k.name;
      assert Snake(lower, k.name) + "" == Snake(lower, k.name);
    } else {
      SnakeCaseSuffix(lower, k.name, Suffix(k.dir));
    }
  }

  /**
   For an accepted order, snake-casing field by field gives the snake-cased allowed names in
   request order, each with its direction untouched.
   */
  lemma AcceptedOrderText(lower: char -> char, fields: map<string, bool>, order: string)
    requires CaseMap(lower)
    requires Grammar(Some(fields), TrimSpace(order)) && TrimSpace(order) != ""
    ensures SnakeFields(lower, TrimSpace(order)) == Join(ColumnEach(lower, ParseKeys(order)), ",")
    ensures forall k :: k in ParseKeys(order) ==> k.name in fields && fields[k.name]
  {
    hide Snake, Suffix, TrimSpace, Split, CaseMap, FormatOk;
    var text := TrimSpace(order);
    var parts := Split(text, ",");
    AcceptedOrderParses(fields, order);
    GrammarByFields(fields, text);
    hide Grammar;
    forall i | 0 <= i < |parts| ensures SnakeEach(lower, parts)[i] == ColumnEach(lower, ParseEach(parts))[i] {
      assert FieldOk(fields, parts[i]);
      PrintParseKey(parts[i]);
      SnakeKey(lower, ParseKey(parts[i]));
    }
    assert SnakeEach(lower, parts) == ColumnEach(lower, ParseEach(parts));
  }
}
