/**
 * `FileService` (src/services/FileService.ts): file operations over a data layer,
 * each proved against the store-level definitions in `Files`.
 */
module FileService {
  import opened Wrappers
  import opened DataRoom
  import opened Text
  import opened Validation
  import opened Repository
  import opened FileHelpers
  import opened DataLayer
  import opened Files
  import Folders

  class FileService {
    const dataLayer: IndexedDBDataLayer

    constructor (dataLayer: IndexedDBDataLayer)
      ensures this.dataLayer == dataLayer
    {
      this.dataLayer := dataLayer;
    }

    /**
     * `uploadFile`; `dataUrl` is what `FileReader.readAsDataURL` produced, None when the
     * reader fails, and `newId` is the id the random source yields.
     */
    method UploadFile(file: Upload, parentId: Option<string>, dataUrl: Option<string>, newId: string)
      returns (r: Result<Item>)
      requires dataLayer.Valid()
      modifies dataLayer
      ensures dataLayer.Valid()
      ensures Step(r, dataLayer.Snapshot()) == Files.UploadFile(old(dataLayer.Snapshot()), file, parentId, dataUrl, newId)
    {
      if file.mimeType != PdfMimeType {
        return Err(NotPdf);
      }
      var maxSize := 10 * 1024 * 1024;
      if file.size > maxSize {
        return Err(TooLarge);
      }
      var nameValidation := ValidateFolderName(file.name);
      if nameValidation.Invalid? {
        return Err(nameValidation.error);
      }
      var existingItems := dataLayer.GetItemsByParent(parentId);
      if existingItems.Err? {
        return Err(existingItems.msg);
      }
      Folders.DuplicateCheckOverListing(file.name, parentId, existingItems.value, dataLayer.items, None);
      var duplicateValidation := CheckDuplicateName(file.name, parentId, existingItems.value, None);
      if duplicateValidation.Invalid? {
        return Err(duplicateValidation.error);
      }
      if dataUrl.None? {
        return Err(UploadFailed);
      }
      var base64Content := StoredContent(dataUrl.value);
      r := dataLayer.CreateItem(NewFile(file.name, parentId, file.mimeType, file.size, base64Content), newId);
    }

    /** `updateFileName`, with the duplicate check run on the trimmed name that is stored (see `Files.UntrimmedFileRenameAdmitsDuplicate`). */
    method UpdateFileName(id: string, name: string) returns (r: Result<Item>)
      requires dataLayer.Valid()
      modifies dataLayer
      ensures dataLayer.Valid()
      ensures Step(r, dataLayer.Snapshot()) == Files.UpdateFileNameTrimmedCheck(old(dataLayer.Snapshot()), id, name)
    {
      var file := GetFileById(id);
      if file.None? {
        return Err(FileNotFound);
      }
      var nameValidation := ValidateFolderName(name);
      if nameValidation.Invalid? {
        return Err(nameValidation.error);
      }
      var existingSiblings := dataLayer.GetItemsByParent(file.value.parentId);
      var trimmed := Trim(name);
      Folders.DuplicateCheckOverListing(trimmed, file.value.parentId, existingSiblings.value, dataLayer.items, Some(id));
      var duplicateValidation := CheckDuplicateName(trimmed, file.value.parentId, existingSiblings.value, Some(id));
      if duplicateValidation.Invalid? {
        return Err(duplicateValidation.error);
      }
      r := dataLayer.UpdateItem(id, Rename(trimmed));
    }

    /** `deleteFile`; `fault` says whether the storage medium fails the delete request. */
    method DeleteFile(id: string, fault: bool) returns (r: Result<()>)
      requires dataLayer.Valid()
      modifies dataLayer
      ensures dataLayer.Valid()
      ensures Step(r, dataLayer.Snapshot()) == Files.DeleteFile(old(dataLayer.Snapshot()), id, fault)
    {
      var file := GetFileById(id);
      if file.None? {
        return Err(FileNotFound);
      }
      r := dataLayer.DeleteItem(id, fault);
    }

    method GetFileById(id: string) returns (r: Option<Item>)
      ensures r == Files.GetFileById(dataLayer.Snapshot(), id)
      ensures r.Some? <==> dataLayer.initialized && id in dataLayer.items && dataLayer.items[id].File?
      ensures r.Some? ==> r.value == dataLayer.items[id]
    {
      var item := dataLayer.GetItemById(id);
      if item.Ok? && item.value.Some? && item.value.value.File? {
        return Some(item.value.value);
      }
      return None;
    }

    method GetFileContent(id: string) returns (r: Option<string>)
      ensures r == Files.GetFileContent(dataLayer.Snapshot(), id)
      ensures r.Some? <==> dataLayer.initialized && id in dataLayer.items && dataLayer.items[id].File? &&
                           dataLayer.items[id].content != ""
    {
      var file := GetFileById(id);
      if file.Some? && file.value.content != "" {
        return Some(file.value.content);
      }
      return None;
    }
  }
}
