/**
 * The failures the handlers report, one constructor per kind of error; the
 * folder and the file handlers word some of them differently.
 */
module Errors {
  import opened Wrappers

  datatype Error =
    | DirNotFound                   // the (target) directory is missing or the path is invalid
    | DirUnreadable                 // the directory's contents could not be read
    | NameEmpty                     // no folder or file name was given
    | AlreadyExists                 // the folder or file is already there
    | CreateFailed                  // mkdir or the empty-file write failed
    | UploadError(code: Option<int>) // PHP's upload error code, None when it is not set ("unknown")
    | TypeNotAllowed(message: string)
    | UploadFailed                  // moving the uploaded file failed
    | ItemNotFound                  // the item to delete is missing or outside the base
    | FolderNotEmpty                // rrmdir failed and the folder still has entries
    | DeleteFailed(folder: bool)    // rrmdir or unlink failed otherwise
    | FileNotFound                  // the file to read or save is missing or outside the base
    | ReadFailed                    // file_get_contents failed
    | SaveFailed                    // file_put_contents failed
    | Fatal                         // an uncaught TypeError: the request ends without a JSON answer
}
