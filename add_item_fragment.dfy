/** The add/edit form: its arguments, the fields it fills when editing, and
    the save rules. */
module AddItem {
  import opened Wrappers
  import opened Binary
  import opened ItemCategory
  import opened Database
  import opened ViewModel
  import Text
  import CryptoUtils

  /** `editItemId`'s "no item" value. */
  const NO_ITEM: int := -1

  /** The toasts the form shows. */
  datatype AddMessage = EmptyFields | Saved

  /** Neither field is blank once trimmed. */
  predicate FieldsFilled(titleText: string, contentText: string): (r: bool)
    ensures r <==> Text.Trim(titleText) != [] && Text.Trim(contentText) != []
  {
    Text.TrimmedBlankIsEmpty(titleText);
    Text.TrimmedBlankIsEmpty(contentText);
    !Text.IsBlank(Text.Trim(titleText)) && !Text.IsBlank(Text.Trim(contentText))
  }

  /** The table after an accepted save: in edit mode the loaded item is
      rewritten in place when it still exists; in add mode a new row takes
      the next id; a failed encryption stores nothing. */
  function SavedRows(rows: Table, sequence: int, editing: bool, selected: Option<VaultItemEntity>,
                     cipher: CryptoUtils.Aead, iv: Bytes, title: string, content: string,
                     category: ItemCategory, scannedImagePath: Option<string>, now: int): (r: Table)
    ensures rows.Keys <= r.Keys <= rows.Keys + {sequence + 1}
    ensures editing ==> r.Keys == rows.Keys
  {
    var encrypted := CryptoUtils.Encrypt(cipher, iv, content);
    if encrypted.Err? then rows
    else if editing then
      if selected.Some? && selected.value.id in rows
      then rows[selected.value.id := UpdatedRecord(selected.value, title, encrypted.value, category, now)]
      else rows
    else rows[sequence + 1 := NewRecord(title, encrypted.value, category, scannedImagePath, now).(id := sequence + 1)]
  }

  /** A save whose encryption fails, or that finds no loaded item in edit
      mode, leaves the table as it was. */
  lemma SavedRowsUnchanged(rows: Table, sequence: int, editing: bool, selected: Option<VaultItemEntity>,
                           cipher: CryptoUtils.Aead, iv: Bytes, title: string, content: string,
                           category: ItemCategory, scannedImagePath: Option<string>, now: int)
    requires CryptoUtils.Encrypt(cipher, iv, content).Err?
             || (editing && (selected.None? || selected.value.id !in rows))
    ensures SavedRows(rows, sequence, editing, selected, cipher, iv, title, content,
                      category, scannedImagePath, now) == rows
  {
  }

  /** In edit mode only the loaded row changes: it keeps its id, creation
      time and image path, takes the new title, category and time, and its
      stored content opens to the trimmed content. */
  lemma SavedRowsEdit(rows: Table, sequence: int, selected: VaultItemEntity,
                      cipher: CryptoUtils.Aead, iv: Bytes, title: string, content: string,
                      category: ItemCategory, scannedImagePath: Option<string>, now: int)
    requires CryptoUtils.Encrypt(cipher, iv, content).Ok? && selected.id in rows
    ensures var r := SavedRows(rows, sequence, true, Some(selected), cipher, iv, title, content,
                               category, scannedImagePath, now);
            var id := selected.id;
            && r.Keys == rows.Keys
            && r[id].id == id && r[id].title == title && r[id].category == category
            && r[id].createdAt == selected.createdAt && r[id].updatedAt == now
            && r[id].scannedImagePath == selected.scannedImagePath
            && (CryptoUtils.OpensWhatItSeals(cipher) ==> DecryptContent(cipher, r[id].encryptedContent) == content)
            && forall k :: k in rows && k != id ==> r[k] == rows[k]
  {
    var encrypted := CryptoUtils.Encrypt(cipher, iv, content).value;
    var r := SavedRows(rows, sequence, true, Some(selected), cipher, iv, title, content,
                       category, scannedImagePath, now);
    assert r == rows[selected.id := UpdatedRecord(selected, title, encrypted, category, now)];
    if CryptoUtils.OpensWhatItSeals(cipher) {
      DecryptContentOfEncrypted(cipher, iv, content);
    }
  }

  /** In add mode a single fresh row appears under the next id, stamped now,
      carrying the image path, its stored content opening to the trimmed
      content. */
  lemma SavedRowsAdd(rows: Table, sequence: int, selected: Option<VaultItemEntity>,
                     cipher: CryptoUtils.Aead, iv: Bytes, title: string, content: string,
                     category: ItemCategory, scannedImagePath: Option<string>, now: int)
    requires CryptoUtils.Encrypt(cipher, iv, content).Ok?
    ensures var r := SavedRows(rows, sequence, false, selected, cipher, iv, title, content,
                               category, scannedImagePath, now);
            var id := sequence + 1;
            && r.Keys == rows.Keys + {id}
            && r[id].id == id && r[id].title == title && r[id].category == category
            && r[id].createdAt == now && r[id].updatedAt == now
            && r[id].scannedImagePath == scannedImagePath
            && (CryptoUtils.OpensWhatItSeals(cipher) ==> DecryptContent(cipher, r[id].encryptedContent) == content)
            && forall k :: k in rows && k != id ==> r[k] == rows[k]
  {
    var encrypted := CryptoUtils.Encrypt(cipher, iv, content).value;
    var r := SavedRows(rows, sequence, false, selected, cipher, iv, title, content,
                       category, scannedImagePath, now);
    assert r == rows[sequence + 1 := NewRecord(title, encrypted, category, scannedImagePath, now).(id := sequence + 1)];
    if CryptoUtils.OpensWhatItSeals(cipher) {
      DecryptContentOfEncrypted(cipher, iv, content);
    }
  }

  /** `AddItemFragment`, with the shared view model. The three text fields
      are the title, content and category widgets' texts. */
  class AddItemFragment {
    const viewModel: VaultViewModel
    var editItemId: int
    var scannedImagePath: Option<string>
    var titleText: string
    var contentText: string
    var categoryText: string
    var toast: Option<AddMessage>
    var navigatedBack: bool

    ghost predicate Valid()
      reads viewModel, viewModel.dao
    {
      viewModel.Valid()
    }

    /** A new fragment is in add mode, with no image attached. */
    constructor (viewModel: VaultViewModel)
      requires viewModel.Valid()
      ensures Valid() && this.viewModel == viewModel
      ensures editItemId == NO_ITEM && scannedImagePath == None
      ensures titleText == [] && contentText == [] && categoryText == []
      ensures toast == None && !navigatedBack
    {
      this.viewModel := viewModel;
      editItemId := NO_ITEM;
      scannedImagePath := None;
      titleText := [];
      contentText := [];
      categoryText := [];
      toast := None;
      navigatedBack := false;
    }

    /** `loadItemForEdit`: asks the view model for the row, then the two
        observers copy the published title, category and content into the
        fields; a value that was never published leaves its field alone. */
    method LoadItemForEdit(id: int)
      requires Valid()
      modifies this, viewModel
      ensures Valid()
      ensures viewModel.selectedItem == (if id in viewModel.dao.rows then Some(viewModel.dao.rows[id]) else None)
      ensures id in viewModel.dao.rows ==>
                && titleText == viewModel.dao.rows[id].title
                && categoryText == DisplayName(viewModel.dao.rows[id].category)
                && contentText == DecryptContent(viewModel.cipher, viewModel.dao.rows[id].encryptedContent)
                && viewModel.decryptedContent == Some(contentText)
      ensures id !in viewModel.dao.rows ==>
                && titleText == old(titleText) && categoryText == old(categoryText)
                && viewModel.decryptedContent == old(viewModel.decryptedContent)
                && contentText == (if old(viewModel.decryptedContent).Some?
                                   then old(viewModel.decryptedContent).value else old(contentText))
      ensures viewModel.filterCategory == old(viewModel.filterCategory)
      ensures viewModel.searchQuery == old(viewModel.searchQuery)
      ensures editItemId == old(editItemId) && scannedImagePath == old(scannedImagePath)
      ensures toast == old(toast) && navigatedBack == old(navigatedBack)
    {
      viewModel.LoadItem(id);
      if viewModel.selectedItem.Some? {
        titleText := viewModel.selectedItem.value.title;
        categoryText := DisplayName(viewModel.selectedItem.value.category);
      }
      if viewModel.decryptedContent.Some? {
        contentText := viewModel.decryptedContent.value;
      }
    }

    /** `onViewCreated`: the category starts as "Secure Note"; non-blank
        scanned text becomes the content; the image path and the item id come
        from the arguments, a missing id meaning add mode; in edit mode the
        item is loaded into the fields. */
    method OnViewCreated(scannedText: Option<string>, scannedImagePathArg: Option<string>,
                         editItemIdArg: Option<int>)
      requires Valid()
      modifies this, viewModel
      ensures Valid()
      ensures scannedImagePath == scannedImagePathArg
      ensures editItemId == (if editItemIdArg.Some? then editItemIdArg.value else NO_ITEM)
      ensures var scanned := if scannedText.Some? && !Text.IsBlank(scannedText.value)
                             then scannedText.value else old(contentText);
              editItemId == NO_ITEM ==>
                && categoryText == DisplayName(Note) && titleText == old(titleText) && contentText == scanned
                && viewModel.selectedItem == old(viewModel.selectedItem)
                && viewModel.decryptedContent == old(viewModel.decryptedContent)
      ensures editItemId != NO_ITEM && editItemId in viewModel.dao.rows ==>
                && viewModel.selectedItem == Some(viewModel.dao.rows[editItemId])
                && titleText == viewModel.dao.rows[editItemId].title
                && categoryText == DisplayName(viewModel.dao.rows[editItemId].category)
                && contentText == DecryptContent(viewModel.cipher, viewModel.dao.rows[editItemId].encryptedContent)
                && viewModel.decryptedContent == Some(contentText)
      ensures var scanned := if scannedText.Some? && !Text.IsBlank(scannedText.value)
                             then scannedText.value else old(contentText);
              editItemId != NO_ITEM && editItemId !in viewModel.dao.rows ==>
                && viewModel.selectedItem == None && categoryText == DisplayName(Note)
                && titleText == old(titleText)
                && viewModel.decryptedContent == old(viewModel.decryptedContent)
                && contentText == (if old(viewModel.decryptedContent).Some?
                                   then old(viewModel.decryptedContent).value else scanned)
      ensures viewModel.filterCategory == old(viewModel.filterCategory)
      ensures viewModel.searchQuery == old(viewModel.searchQuery)
      ensures toast == old(toast) && navigatedBack == old(navigatedBack)
    {
      categoryText := DisplayName(Note);
      var text := if scannedText.Some? then scannedText.value else "";
      if !Text.IsBlank(text) {
        contentText := text;
      }
      scannedImagePath := scannedImagePathArg;
      editItemId := if editItemIdArg.Some? then editItemIdArg.value else NO_ITEM;
      if editItemId != NO_ITEM {
        LoadItemForEdit(editItemId);
      }
    }

    /** The branch of `saveItem` that writes: `updateItem` on the loaded
        item in edit mode (nothing when none is loaded), `addItem` with the
        scanned image path in add mode. */
    method Store(title: string, content: string, category: ItemCategory, iv: Bytes, now: int)
      requires Valid()
      modifies viewModel.dao
      ensures Valid()
      ensures viewModel.dao.sequence >= old(viewModel.dao.sequence)
      ensures viewModel.dao.rows ==
                SavedRows(old(viewModel.dao.rows), old(viewModel.dao.sequence), editItemId != NO_ITEM,
                          viewModel.selectedItem, viewModel.cipher, iv, title, content, category,
                          scannedImagePath, now)
    {
      if editItemId != NO_ITEM {
        if viewModel.selectedItem.Some? {
          viewModel.UpdateItem(viewModel.selectedItem.value, title, content, category, iv, now);
        }
      } else {
        viewModel.AddItem(title, content, category, scannedImagePath, iv, now);
      }
    }

    /** `saveItem`: trims title and content and rejects the save if either is
        blank; otherwise parses the category leniently and, in edit mode,
        rewrites the loaded item (nothing when none is loaded) or, in add
        mode, adds a new item carrying the scanned image path; then it
        confirms and navigates back. */
    method SaveItem(iv: Bytes, now: int)
      requires Valid()
      modifies this, viewModel.dao
      ensures Valid()
      ensures viewModel.dao.sequence >= old(viewModel.dao.sequence)
      ensures !FieldsFilled(old(titleText), old(contentText)) ==>
                && toast == Some(EmptyFields) && navigatedBack == old(navigatedBack)
                && viewModel.dao.rows == old(viewModel.dao.rows)
      ensures FieldsFilled(old(titleText), old(contentText)) ==>
                && toast == Some(Saved) && navigatedBack
                && viewModel.dao.rows ==
                     SavedRows(old(viewModel.dao.rows), old(viewModel.dao.sequence), editItemId != NO_ITEM,
                               viewModel.selectedItem, viewModel.cipher, iv, Text.Trim(old(titleText)),
                               Text.Trim(old(contentText)), FromDisplayName(old(categoryText)),
                               scannedImagePath, now)
      ensures editItemId == old(editItemId) && scannedImagePath == old(scannedImagePath)
      ensures titleText == old(titleText) && contentText == old(contentText) && categoryText == old(categoryText)
    {
      if !FieldsFilled(titleText, contentText) {
        toast := Some(EmptyFields);
        return;
      }
      Store(Text.Trim(titleText), Text.Trim(contentText), FromDisplayName(categoryText), iv, now);
      toast := Some(Saved);
      navigatedBack := true;
    }
  }
}
