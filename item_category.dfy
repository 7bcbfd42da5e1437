/** The six kinds of vault record, each with the label the UI shows. */
module ItemCategory {
  import opened Wrappers

  datatype ItemCategory = IdCard | Password | Note | Receipt | Photo | Other

  /** The enum's `entries`, in declaration order. */
  const Entries: seq<ItemCategory> := [IdCard, Password, Note, Receipt, Photo, Other]

  /** The constant's `displayName`. */
  function DisplayName(c: ItemCategory): string {
    match c
    case IdCard => "ID Card"
    case Password => "Password"
    case Note => "Secure Note"
    case Receipt => "Receipt"
    case Photo => "Photo"
    case Other => "Other"
  }

  /** The constant's `name`: its identifier in the Kotlin source. */
  function Name(c: ItemCategory): string {
    match c
    case IdCard => "ID_CARD"
    case Password => "PASSWORD"
    case Note => "NOTE"
    case Receipt => "RECEIPT"
    case Photo => "PHOTO"
    case Other => "OTHER"
  }

  /** There are exactly six constants, each listed once in `entries`. */
  lemma EntriesAreTheConstants()
    ensures |Entries| == 6
    ensures forall c: ItemCategory :: c in Entries
    ensures forall i, j :: 0 <= i < j < |Entries| ==> Entries[i] != Entries[j]
  {
    forall c: ItemCategory ensures c in Entries {
      InEntries(c);
    }
  }

  lemma InEntries(c: ItemCategory)
    ensures c in Entries
  {
    match c
    case IdCard => assert Entries[0] == c;
    case Password => assert Entries[1] == c;
    case Note => assert Entries[2] == c;
    case Receipt => assert Entries[3] == c;
    case Photo => assert Entries[4] == c;
    case Other => assert Entries[5] == c;
  }

  /** No two constants share a display name or a name. */
  lemma NamesDistinct(a: ItemCategory, b: ItemCategory)
    ensures DisplayName(a) == DisplayName(b) ==> a == b
    ensures Name(a) == Name(b) ==> a == b
  {
  }

  /** `entries.find { it.displayName == name }`: the first entry with that display name. */
  function FindByDisplayName(entries: seq<ItemCategory>, name: string): (r: Option<ItemCategory>)
    ensures r.Some? ==> r.value in entries && DisplayName(r.value) == name
    ensures r.None? ==> forall c :: c in entries ==> DisplayName(c) != name
  {
    if entries == [] then None
    else if DisplayName(entries[0]) == name then Some(entries[0])
    else FindByDisplayName(entries[1..], name)
  }

  /** `ItemCategory.fromDisplayName`: the constant with exactly this display
      name, and `OTHER` for any other text (case matters); it never fails. */
  function FromDisplayName(name: string): (r: ItemCategory)
    ensures forall c :: DisplayName(c) == name ==> r == c
    ensures (forall c :: DisplayName(c) != name) ==> r == Other
  {
    match FindByDisplayName(Entries, name)
    case Some(c) =>
      assert forall d :: DisplayName(d) == name ==> d == c by {
        forall d | DisplayName(d) == name ensures d == c { NamesDistinct(c, d); }
      }
      c
    case None =>
      assert forall d :: DisplayName(d) != name by {
        forall d ensures DisplayName(d) != name { InEntries(d); }
      }
      Other
  }

  /** Every display name parses back to its constant. */
  lemma FromDisplayNameOfDisplayName(c: ItemCategory)
    ensures FromDisplayName(DisplayName(c)) == c
  {
  }
}

/** Room's type converters for the `category` column. */
module Converters {
  import opened Wrappers
  import opened ItemCategory

  /** The exception `valueOf` throws for an unknown name. */
  datatype ConversionError = IllegalArgument(value: string)

  /** `Converters.fromCategory`: the constant's identifier name, never its display name. */
  function FromCategory(category: ItemCategory): (r: string)
    ensures r != DisplayName(category)
    ensures ToCategory(r) == Ok(category)
  {
    NoNameIsADisplayName(category, category);
    ToCategoryOfName(category);
    Name(category)
  }

  /** Identifier names are upper case with underscores, display names are
      not: the two vocabularies never meet. */
  lemma NoNameIsADisplayName(c: ItemCategory, d: ItemCategory)
    ensures Name(d) != DisplayName(c)
  {
    assert Name(d)[2] in "_STCOH";
    assert DisplayName(c)[2] in " scoh";
  }

  lemma ToCategoryOfName(c: ItemCategory)
    ensures ToCategory(Name(c)) == Ok(c)
  {
    var r := ToCategory(Name(c));
    assert r.Ok?;
    NamesDistinct(r.value, c);
  }

  /** The first of `entries` with this name. */
  function FindByName(entries: seq<ItemCategory>, value: string): (r: Option<ItemCategory>)
    ensures r.Some? ==> r.value in entries && Name(r.value) == value
    ensures r.None? ==> forall c :: c in entries ==> Name(c) != value
  {
    if entries == [] then None
    else if Name(entries[0]) == value then Some(entries[0])
    else FindByName(entries[1..], value)
  }

  /** `Converters.toCategory`, that is `ItemCategory.valueOf`: strict, it
      throws for any text that is not exactly a constant's name. */
  function ToCategory(value: string): (r: Result<ItemCategory, ConversionError>)
    ensures r.Ok? ==> Name(r.value) == value
    ensures r.Err? <==> forall c :: Name(c) != value
  {
    match FindByName(Entries, value)
    case Some(c) => Ok(c)
    case None => Err(IllegalArgument(value))
  }

  /** Stored names read back: `fromCategory(toCategory(s)) == s` for every constant name `s`. */
  lemma FromCategoryToCategory(value: string)
    requires exists c :: Name(c) == value
    ensures ToCategory(value).Ok? && FromCategory(ToCategory(value).value) == value
  {
  }

  /** The converter is strict where the display-name parse is lenient: no
      display name is a constant name, so each one makes `toCategory` throw,
      while `fromDisplayName` maps it to its constant. */
  lemma StrictVersusLenient(c: ItemCategory)
    ensures ToCategory(DisplayName(c)).Err?
    ensures FromDisplayName(DisplayName(c)) == c
  {
    forall d ensures Name(d) != DisplayName(c) {
      NoNameIsADisplayName(c, d);
    }
  }
}
