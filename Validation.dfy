/**
 * Name rules (src/utils/validation.ts): well-formedness of a folder or file name
 * and case-insensitive uniqueness of a name among the items under one parent.
 */
module Validation {
  import opened Wrappers
  import opened DataRoom
  import opened Text

  datatype ValidationResult = Valid | Invalid(error: string)

  const MaxNameLength: nat := 255

  /** The characters of the class `[<>:"/\\|?*]`. */
  predicate IsReservedChar(c: char) {
    c in "<>:\"/\\|?*"
  }

  predicate HasReservedChar(name: string) {
    exists i :: 0 <= i < |name| && IsReservedChar(name[i])
  }

  /** The three checks of a name validator; the first one that fires decides the error. */
  datatype NameFault = Blank | TooLong | ReservedChar

  /**
   * The checks in the source's order: blank after trimming, longer than 255 UTF-16
   * units (counted on the untrimmed name), a reserved character.
   */
  function FirstFault(name: string): Option<NameFault> {
    if Trim(name) == [] then Some(Blank)
    else if Utf16Length(name) > MaxNameLength then Some(TooLong)
    else if HasReservedChar(name) then Some(ReservedChar)
    else None
  }

  /** The message of a fault; `noun` is "Folder" or "File", the validators' only difference. */
  function FaultMessage(noun: string, fault: NameFault): string {
    match fault
    case Blank => noun + " name cannot be empty"
    case TooLong => noun + " name cannot exceed 255 characters"
    case ReservedChar => noun + " name contains invalid characters"
  }

  function CheckName(name: string, noun: string): ValidationResult {
    match FirstFault(name)
    case None => Valid
    case Some(fault) => Invalid(FaultMessage(noun, fault))
  }

  function ValidateFileName(name: string): ValidationResult {
    CheckName(name, "File")
  }

  function ValidateFolderName(name: string): ValidationResult {
    CheckName(name, "Folder")
  }

  /** A name made of white space only (including the empty name) is rejected as empty. */
  lemma BlankNameRejected(name: string)
    requires forall i :: 0 <= i < |name| ==> IsSpace(name[i])
    ensures FirstFault(name) == Some(Blank)
    ensures ValidateFolderName(name) == Invalid("Folder name cannot be empty")
  {
    TrimEmptyIffBlank(name);
  }

  /**
   * The length limit counts the untrimmed name: on a name with a visible character, no
   * reserved character and no character beyond U+FFFF, 255 characters pass and 256 fail.
   */
  lemma LengthBoundary(name: string)
    requires exists i :: 0 <= i < |name| && !IsSpace(name[i])
    requires !HasReservedChar(name)
    requires forall i :: 0 <= i < |name| ==> name[i] as int <= 0xFFFF
    ensures ValidateFolderName(name).Valid? <==> |name| <= 255
    ensures |name| > 255 ==> FirstFault(name) == Some(TooLong)
  {
    TrimEmptyIffBlank(name);
  }

  /** A reserved character anywhere rejects the name; it is the reported fault when the name is neither blank nor too long. */
  lemma ReservedCharRejected(name: string, i: nat)
    requires i < |name| && IsReservedChar(name[i])
    ensures ValidateFolderName(name).Invalid?
    ensures Trim(name) != [] && Utf16Length(name) <= MaxNameLength ==> FirstFault(name) == Some(ReservedChar)
  {
  }

  /** The file validator accepts exactly the names the folder validator accepts, and reports the same check. */
  lemma FileAndFolderRulesAgree(name: string)
    ensures ValidateFileName(name).Valid? == ValidateFolderName(name).Valid?
    ensures ValidateFileName(name).Invalid? ==>
              ValidateFileName(name).error == FaultMessage("File", FirstFault(name).value) &&
              ValidateFolderName(name).error == FaultMessage("Folder", FirstFault(name).value)
  {
  }

  function DuplicateMessage(name: string): string {
    "An item with the name \"" + name + "\" already exists in this location"
  }

  /**
   * `item` clashes with the candidate name: same parent, not the excluded id (an absent
   * `excludeId` excludes nothing) and equal names once lower-cased.
   */
  predicate Clashes(item: Item, name: string, parentId: Option<string>, excludeId: Option<string>) {
    && item.parentId == parentId
    && (excludeId.None? || item.id != excludeId.value)
    && Lower(item.name) == Lower(name)
  }

  /** `items.filter(item => item.parentId === parentId && item.id !== excludeId)`. */
  function Siblings(items: seq<Item>, parentId: Option<string>, excludeId: Option<string>): (r: seq<Item>)
    ensures forall x :: x in r <==> (x in items && x.parentId == parentId &&
                                       (excludeId.None? || x.id != excludeId.value))
  {
    if items == [] then []
    else
      var rest := Siblings(items[1..], parentId, excludeId);
      if items[0].parentId == parentId && (excludeId.None? || items[0].id != excludeId.value)
      then [items[0]] + rest else rest
  }

  /** `siblings.find(item => item.name.toLowerCase() === name.toLowerCase())`. */
  function FindByName(siblings: seq<Item>, name: string): (r: Option<Item>)
    ensures r.Some? <==> exists x :: x in siblings && Lower(x.name) == Lower(name)
    ensures r.Some? ==> r.value in siblings && Lower(r.value.name) == Lower(name)
  {
    if siblings == [] then None
    else if Lower(siblings[0].name) == Lower(name) then Some(siblings[0])
    else FindByName(siblings[1..], name)
  }

  /** Fails exactly when some listed item clashes with the candidate name. */
  function CheckDuplicateName(name: string, parentId: Option<string>, items: seq<Item>,
                              excludeId: Option<string>): (r: ValidationResult)
    ensures r.Invalid? <==> exists x :: x in items && Clashes(x, name, parentId, excludeId)
    ensures r.Invalid? ==> r.error == DuplicateMessage(name)
  {
    match FindByName(Siblings(items, parentId, excludeId), name)
    case Some(_) => Invalid(DuplicateMessage(name))
    case None => Valid
  }

  /** Renaming an item to its own name never clashes with itself. */
  lemma RenameToOwnNameOnlyClashesWithOthers(items: seq<Item>, i: nat)
    requires i < |items|
    ensures CheckDuplicateName(items[i].name, items[i].parentId, items, Some(items[i].id)).Valid?
            <==> forall x :: x in items && x.id != items[i].id && x.parentId == items[i].parentId ==>
                               Lower(x.name) != Lower(items[i].name)
  {
  }

  /** Items under another parent never change the verdict, wherever they are listed. */
  lemma OtherParentsIgnored(name: string, parentId: Option<string>, before: seq<Item>,
                            others: seq<Item>, after: seq<Item>, excludeId: Option<string>)
    requires forall x :: x in others ==> x.parentId != parentId
    ensures CheckDuplicateName(name, parentId, before + others + after, excludeId) ==
            CheckDuplicateName(name, parentId, before + after, excludeId)
  {
  }

  /** The verdict depends only on which items are listed, not on their order. */
  lemma OrderIrrelevant(name: string, parentId: Option<string>, a: seq<Item>, b: seq<Item>,
                        excludeId: Option<string>)
    requires multiset(a) == multiset(b)
    ensures CheckDuplicateName(name, parentId, a, excludeId) == CheckDuplicateName(name, parentId, b, excludeId)
  {
    forall x | x in a ensures x in b {
      assert x in multiset(a);
    }
    forall x | x in b ensures x in a {
      assert x in multiset(b);
    }
  }
}
