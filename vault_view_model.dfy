/** The vault screen's view model: the filter and search slots that pick the
    listing query, and the record operations that encrypt before they write. */
module ViewModel {
  import opened Wrappers
  import opened Binary
  import opened ItemCategory
  import opened Database
  import Text
  import CryptoUtils
  import Utf8

  const DECRYPTION_FAILED: string := "[Decryption failed]"

  /** The `when` inside `allItems`: a non-blank query searches titles and
      ignores the category; otherwise the category, if any, filters. */
  function SelectQuery(category: Option<ItemCategory>, query: string): (r: RowFilter)
    ensures r == AllRows <==> Text.IsBlank(query) && category.None?
  {
    if !Text.IsBlank(query) then TitleLike(query)
    else if category.Some? then InCategory(category.value)
    else AllRows
  }

  /** A non-blank query wins over any category, and the category is
      irrelevant to it. */
  lemma SearchIgnoresCategory(c1: Option<ItemCategory>, c2: Option<ItemCategory>, query: string)
    requires !Text.IsBlank(query)
    ensures SelectQuery(c1, query) == SelectQuery(c2, query) == TitleLike(query)
  {
  }

  /** Blank queries, whatever their whitespace, all select the same listing:
      by category when one is set, everything otherwise. */
  lemma BlankQueryIgnored(category: Option<ItemCategory>, q1: string, q2: string)
    requires Text.IsBlank(q1) && Text.IsBlank(q2)
    ensures SelectQuery(category, q1) == SelectQuery(category, q2)
    ensures SelectQuery(category, q1) == if category.Some? then InCategory(category.value) else AllRows
  {
  }

  /** The row `addItem` builds: id left for the table to assign, both
      timestamps from the one clock reading. */
  function NewRecord(title: string, encrypted: string, category: ItemCategory,
                     scannedImagePath: Option<string>, now: int): (r: VaultItemEntity)
    ensures r.id == 0 && r.createdAt == now && r.updatedAt == now
    ensures r.title == title && r.encryptedContent == encrypted
    ensures r.category == category && r.scannedImagePath == scannedImagePath
  {
    VaultItemEntity(0, title, encrypted, category, scannedImagePath, now, now)
  }

  /** The `copy` in `updateItem`. */
  function UpdatedRecord(item: VaultItemEntity, title: string, encrypted: string,
                         category: ItemCategory, now: int): (r: VaultItemEntity)
    ensures r.id == item.id && r.createdAt == item.createdAt
    ensures r.scannedImagePath == item.scannedImagePath
    ensures r.title == title && r.encryptedContent == encrypted
    ensures r.category == category && r.updatedAt == now
  {
    item.(title := title, encryptedContent := encrypted, category := category, updatedAt := now)
  }

  /** `decryptContent`: content that `encrypt` produced shows as the text it
      was given; the fallback text shows exactly when the envelope does not
      parse or the cipher rejects it; it never fails itself. */
  function DecryptContent(cipher: CryptoUtils.Aead, encrypted: string): (r: string)
    ensures forall iv, s ::
              (CryptoUtils.OpensWhatItSeals(cipher) && CryptoUtils.Encrypt(cipher, iv, s) == Ok(encrypted)) ==> r == s
    ensures CryptoUtils.DecodeText(encrypted).Err? ==> r == DECRYPTION_FAILED
    ensures var p := CryptoUtils.DecodeText(encrypted);
            p.Ok? ==> r == match cipher.open(p.value.iv, p.value.ciphertext)
                           case None => DECRYPTION_FAILED
                           case Some(m) => Utf8.Decode(m)
  {
    CryptoUtils.DecryptOfAnyEnvelope(cipher, encrypted);
    match CryptoUtils.Decrypt(cipher, encrypted)
    case Ok(s) => s
    case Err(_) => DECRYPTION_FAILED
  }

  /** What `addItem` stored decrypts back to the content it was given. */
  lemma DecryptContentOfEncrypted(cipher: CryptoUtils.Aead, iv: Bytes, content: string)
    requires CryptoUtils.OpensWhatItSeals(cipher)
    requires CryptoUtils.Encrypt(cipher, iv, content).Ok?
    ensures DecryptContent(cipher, CryptoUtils.Encrypt(cipher, iv, content).value) == content
  {
    CryptoUtils.DecryptEncrypt(cipher, iv, content);
  }

  /** Whatever `encrypt` handed back for some content opens to that content. */
  lemma StoredContentOpens(cipher: CryptoUtils.Aead, iv: Bytes, content: string, stored: string)
    requires CryptoUtils.Encrypt(cipher, iv, content) == Ok(stored)
    ensures CryptoUtils.OpensWhatItSeals(cipher) ==> DecryptContent(cipher, stored) == content
  {
    if CryptoUtils.OpensWhatItSeals(cipher) {
      DecryptContentOfEncrypted(cipher, iv, content);
    }
  }

  /** The view model. `cipher` is the keystore-backed AES-GCM cipher; the
      two `MutableStateFlow` slots and the two `LiveData` values are fields,
      `None` standing for a null slot or a value never posted. */
  class VaultViewModel {
    const dao: VaultDao
    const cipher: CryptoUtils.Aead
    var filterCategory: Option<ItemCategory>
    var searchQuery: string
    var selectedItem: Option<VaultItemEntity>
    var decryptedContent: Option<string>

    ghost predicate Valid()
      reads dao
    {
      dao.Valid()
    }

    constructor (dao: VaultDao, cipher: CryptoUtils.Aead)
      requires dao.Valid()
      ensures Valid() && this.dao == dao && this.cipher == cipher
      ensures filterCategory == None && searchQuery == []
      ensures selectedItem == None && decryptedContent == None
    {
      this.dao := dao;
      this.cipher := cipher;
      filterCategory := None;
      searchQuery := [];
      selectedItem := None;
      decryptedContent := None;
    }

    /** `allItems`: the listing the current slots select, newest first. */
    function AllItems(): (r: seq<VaultItemEntity>)
      requires Valid()
      reads this, dao
      ensures SortedByUpdatedDesc(r) && DistinctIds(r)
      ensures !Text.IsBlank(searchQuery) ==>
                forall e :: e in r <==> Stored(dao.rows, e) && LikeMatch(e.title, "%" + searchQuery + "%")
      ensures Text.IsBlank(searchQuery) && filterCategory.Some? ==>
                forall e :: e in r <==> Stored(dao.rows, e) && e.category == filterCategory.value
      ensures Text.IsBlank(searchQuery) && filterCategory.None? ==>
                forall e :: e in r <==> Stored(dao.rows, e)
    {
      Select(dao.rows, SelectQuery(filterCategory, searchQuery))
    }

    /** `setFilter`: changes the category slot only. */
    method SetFilter(category: Option<ItemCategory>)
      modifies this
      ensures filterCategory == category
      ensures searchQuery == old(searchQuery)
      ensures selectedItem == old(selectedItem) && decryptedContent == old(decryptedContent)
    {
      filterCategory := category;
    }

    /** `setSearchQuery`: changes the query slot only; the text is kept as typed. */
    method SetSearchQuery(query: string)
      modifies this
      ensures searchQuery == query
      ensures filterCategory == old(filterCategory)
      ensures selectedItem == old(selectedItem) && decryptedContent == old(decryptedContent)
    {
      searchQuery := query;
    }

    /** `addItem`: encrypts the content under the fresh `iv` and inserts a new
        row stamped `now`. If encryption fails, nothing is inserted. */
    method AddItem(title: string, content: string, category: ItemCategory,
                   scannedImagePath: Option<string>, iv: Bytes, now: int)
      requires Valid()
      modifies dao
      ensures Valid()
      ensures CryptoUtils.Encrypt(cipher, iv, content).Err? ==>
                dao.rows == old(dao.rows) && dao.sequence == old(dao.sequence)
      ensures CryptoUtils.Encrypt(cipher, iv, content).Ok? ==>
                var id := old(dao.sequence) + 1;
                && id !in old(dao.rows)
                && dao.rows == old(dao.rows)[id := NewRecord(title, CryptoUtils.Encrypt(cipher, iv, content).value,
                                                            category, scannedImagePath, now).(id := id)]
                && dao.sequence == id
                && (CryptoUtils.OpensWhatItSeals(cipher) ==> DecryptContent(cipher, dao.rows[id].encryptedContent) == content)
    {
      var encrypted := CryptoUtils.Encrypt(cipher, iv, content);
      if encrypted.Ok? {
        var record := NewRecord(title, encrypted.value, category, scannedImagePath, now);
        assert record.id == 0 && record.encryptedContent == encrypted.value;
        var id := dao.InsertItem(record);
        StoredContentOpens(cipher, iv, content, dao.rows[id].encryptedContent);
      }
    }

    /** `updateItem`: re-encrypts the content and rewrites the row, keeping
        its id, creation time and image path; does nothing when encryption
        fails or the row no longer exists. */
    method UpdateItem(item: VaultItemEntity, newTitle: string, newContent: string,
                      newCategory: ItemCategory, iv: Bytes, now: int)
      requires Valid()
      modifies dao
      ensures Valid() && dao.sequence == old(dao.sequence)
      ensures CryptoUtils.Encrypt(cipher, iv, newContent).Err? || item.id !in old(dao.rows) ==>
                dao.rows == old(dao.rows)
      ensures CryptoUtils.Encrypt(cipher, iv, newContent).Ok? && item.id in old(dao.rows) ==>
                dao.rows == old(dao.rows)[item.id := UpdatedRecord(item, newTitle,
                              CryptoUtils.Encrypt(cipher, iv, newContent).value, newCategory, now)]
    {
      var encrypted := CryptoUtils.Encrypt(cipher, iv, newContent);
      if encrypted.Ok? {
        dao.UpdateItem(UpdatedRecord(item, newTitle, encrypted.value, newCategory, now));
      }
    }

    /** `deleteItem`: removes the row with the item's id. */
    method DeleteItem(item: VaultItemEntity)
      requires Valid()
      modifies dao
      ensures Valid()
      ensures dao.rows == old(dao.rows) - {item.id} && dao.sequence == old(dao.sequence)
    {
      dao.DeleteItem(item);
    }

    /** `loadItem`: publishes the row (or null) and, when there is a row, its
        decrypted content; a missing id leaves the content as it was. */
    method LoadItem(itemId: int)
      requires Valid()
      modifies this
      ensures Valid()
      ensures selectedItem == (if itemId in dao.rows then Some(dao.rows[itemId]) else None)
      ensures itemId in dao.rows ==>
                decryptedContent == Some(DecryptContent(cipher, dao.rows[itemId].encryptedContent))
      ensures itemId !in dao.rows ==> decryptedContent == old(decryptedContent)
      ensures filterCategory == old(filterCategory) && searchQuery == old(searchQuery)
    {
      var item := dao.GetItemById(itemId);
      selectedItem := item;
      if item.Some? {
        decryptedContent := Some(DecryptContent(cipher, item.value.encryptedContent));
      }
    }

    /** `deleteAllItems`: the table is empty afterwards. */
    method DeleteAllItems()
      requires Valid()
      modifies dao
      ensures Valid()
      ensures dao.rows == map[] && dao.sequence == old(dao.sequence)
      ensures AllItems() == []
    {
      dao.DeleteAllItems();
    }
  }
}
