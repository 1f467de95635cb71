/**
 * The records exchanged between the client and the server
 * (common/src/lib.rs), and a value for the outcome of Rust code that may panic.
 */
module Common {

  /** `ItemType`: only `File` is ever produced; `Command` is reserved. */
  datatype ItemType = File | Command

  /** `Item`: one entry of the selector's list. */
  datatype Item = Item(name: string, itemType: ItemType)

  /** Body of the answer to `GET /api/files`. */
  datatype GetFilesResponse = GetFilesResponse(files: seq<Item>)

  /** Body of the answer to `GET /api/file/<name>`. */
  datatype GetFileContentResponse = GetFileContentResponse(content: string)

  /** Body of `POST /api/file/<name>`. */
  datatype SaveFileContentRequest = SaveFileContentRequest(content: string)

  /**
   * What a piece of Rust code does: return a value, or panic (an `unwrap`
   * or `expect` on a failure); `reason` is the message the code gives.
   */
  datatype Outcome<+T> = Returns(value: T) | Panics(reason: string)
}
