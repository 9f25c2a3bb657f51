// The fixed configuration of the masking program and the shape of a cell value.
module MaskSettings {

  /** The redaction marker that replaces masked content (MASK_VALUE). */
  const MaskMarker: string := "***"

  /** The hard cut applied to truncate columns (MAX_TEXT_LENGTH). */
  const MaxTextLength: nat := 255

  /** A header containing any of these (case-folded) selects whole-value
      masking; the groups follow the lines of HEADER_KEYWORDS. */
  const NameKeywords: seq<string> := ["名前", "氏名", "お名前", "姓", "名", "苗字"]
  const KanaKeywords: seq<string> := ["ふりがな", "フリガナ", "よみがな", "ヨミガナ", "よみ", "かな", "カナ"]
  const CompanyKeywords: seq<string> := ["会社", "企業", "法人", "組織"]
  const AddressKeywords: seq<string> := ["住所", "都道府県", "市区町村", "番地", "建物"]
  const PasswordKeywords: seq<string> := ["パスワード", "pw", "pass", "password"]
  const PhoneKeywords: seq<string> := ["電話", "tel", "phone", "携帯", "mobile", "phs"]
  const FaxKeywords: seq<string> := ["fax", "ファックス", "ファクス"]
  const MailKeywords: seq<string> := ["mail", "メール", "email"]
  const RecordKeywords: seq<string> := ["登録者", "担当者", "備考", "メモ", "郵便番号", "顧客コード", "会社コード"]
  const HeaderKeywords: seq<string> :=
    NameKeywords + KanaKeywords + CompanyKeywords + AddressKeywords + PasswordKeywords
    + PhoneKeywords + FaxKeywords + MailKeywords + RecordKeywords

  /** A header containing either of these (case-sensitively) selects truncation. */
  const TruncateKeywords: seq<string> := ["メモ", "備考"]

  /** Entity labels whose spans the semantic tier redacts (NER_TARGET_LABELS). */
  const NerTargetLabels: set<string> := {"Person", "GPE", "Location", "Organization", "Facility"}

  /** A cell value as the program sees it: Python's None, a str, or any other
      object (a number or a date read from a workbook), which carries what
      str() renders it as and its Python truth value. */
  datatype Value = None | Str(s: string) | Other(shown: string, truthy: bool)

  /** `str(value)` for a value that is not None. */
  function Shown(v: Value): string
    requires !v.None?
  {
    match v
    case Str(s) => s
    case Other(shown, _) => shown
  }

  /** Python truthiness of a cell value (`if cell.value:`). */
  predicate Truthy(v: Value) {
    match v
    case None => false
    case Str(s) => |s| > 0
    case Other(_, truthy) => truthy
  }
}
