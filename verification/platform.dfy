/**
 Behaviour of the .NET runtime, of the regular-expression engine and of the
 tracking store that the model does not define itself.  Each is a field of a
 datatype holding function values, so every operation that depends on one
 receives it explicitly and every property holds for any choice of them.
 */
module Platform {
  import opened Wrappers

  newtype byte = x: int | 0 <= x < 256

  /** A .NET `DateTime`, by its tick count. */
  datatype Date = Date(ticks: int)

  /** The two named groups of a successful attachment-URL regex match. */
  datatype UrlMatch = UrlMatch(fileId: string, fileName: string)

  datatype Runtime = Runtime(
    /** The invariant upper-casing behind `StringComparer.OrdinalIgnoreCase`. */
    upper: char -> char,
    /** The case map `RegexOptions.IgnoreCase` applies to input and pattern. */
    regexLower: char -> char,
    /** The regex class `\d`. */
    isDigit: char -> bool,
    /** `String.ToLower()`. */
    toLower: string -> string,
    /** `DateTime.ToString()`. */
    dateText: Date -> string,
    /** `DateTime.ToShortDateString()`. */
    shortDate: Date -> string,
    /** `DateTime.ToString("yyyy/MM/dd hh:mm")`. */
    commentStamp: Date -> string,
    /** `Convert.ToBase64String`. */
    base64: seq<byte> -> string,
    /** `_apis/wit/attachments/(?<fileId>.*)\?fileName=(?<fileName>.*)`, ignoring case. */
    urlPattern1: string -> Option<UrlMatch>,
    /** `FileNameGuid=(?<fileId>.*).*fileName=(?<fileName>.*)`, ignoring case. */
    urlPattern2: string -> Option<UrlMatch>)

  /** The downloads the image step performs; `None` is a call that threw. */
  datatype Store = Store(
    /** Whether the connection holds server credentials. */
    hasCredentials: bool,
    /** `WorkItemServer.DownloadFile(id)` and reading the file it names. */
    downloadFile: int -> Option<seq<byte>>,
    /** `WebClient.DownloadFile(url, temp)` with the credentials, then reading `temp`. */
    downloadUrl: string -> Option<seq<byte>>,
    /** `GetAttachmentContentAsync(new Guid(fileId), fileName)` copied to a temporary file and read. */
    attachmentContent: (string, string) -> Option<seq<byte>>)
}
