/** The parts of an HTTP exchange the server looks at (hyper's `Request` and `Response`). */
module Http {

  import opened Wrappers
  import opened Common
  import Utf8

  /**
   * A request method. `OtherMethod` stands for every method other than GET
   * and POST; its name is never "GET" or "POST" (hyper parses those two to
   * `Method::GET` and `Method::POST`).
   */
  datatype Method = Get | Post | OtherMethod(name: string)

  /** `Uri::path()`: never empty (an absent path reads as "/"). */
  type UriPath = p: string | |p| >= 1 witness "/"

  /**
   * A request: its method, path, raw query (the text after `?`, if any), and
   * its body read as a `SaveFileContentRequest` (None when it is not one).
   */
  datatype Request = Request(verb: Method, path: UriPath, query: Option<string>, body: Option<SaveFileContentRequest>)

  datatype Body =
    | Empty
    | FilesJson(files: GetFilesResponse)
    | ContentJson(content: GetFileContentResponse)
    | AssetBytes(bytes: seq<Utf8.byte>)

  datatype Response = Response(status: nat, body: Body)

  /** `build_404_response`: status 404, empty body. */
  function NotFound(): (r: Response)
    ensures r.status == 404 && r.body == Empty
  {
    Response(404, Empty)
  }
}
