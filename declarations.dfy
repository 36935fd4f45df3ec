/**
 * The record types shared by the content files, the category pages and the
 * scripts: one block's metadata and one category's metadata.
 */
module Declarations {
  import opened Wrappers

  /** Whether a block is a single `.tsx` file or a directory of files. */
  datatype BlockKind = FileBlock | DirectoryBlock

  /** One entry of the block metadata list. */
  datatype BlocksMetadata = BlocksMetadata(
    id: string,
    category: string,
    name: string,
    iframeHeight: Option<string>,
    kind: BlockKind)

  /** The thumbnail component a category card shows, by name. */
  datatype Thumbnail =
    | DialogThumbnail
    | FileUploadThumbnail
    | FormLayoutThumbnail
    | LoginThumbnail
    | StatsThumbnail

  /** A category as listed before its block count is known. */
  datatype PreCategory = PreCategory(
    id: string,
    name: string,
    thumbnail: Thumbnail,
    hasCharts: Option<bool>)

  /** A category with the number of its blocks, rendered as a decimal string. */
  datatype CategoryMetadata = CategoryMetadata(
    id: string,
    name: string,
    thumbnail: Thumbnail,
    count: string,
    hasCharts: Option<bool>)

  const FileUploadId: string := "file-upload"
  const FormLayoutId: string := "form-layout"
  const LoginId: string := "login"
  const StatsId: string := "stats"
  const GridListId: string := "grid-list"
  const DialogsId: string := "dialogs"
}
