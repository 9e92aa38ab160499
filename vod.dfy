/**
 * The two remote calls of the uploader, `UploadMediaWithCallback` and
 * `publishVideo`, reduced to their error handling. The SDK round trip is not
 * modelled: what it answered is given as a response value, which is one of
 * the two tiers of failure (the call itself failed, or it completed with an
 * error code in the response metadata) or a success.
 */
module Vod {
  import opened Wrappers

  /** A Go `error`, known to the uploader only through its message. */
  datatype Error = Error(message: string)

  /** What the upload call answered. A success carries the vid read from the response data. */
  datatype UploadResponse =
    | UploadTransportFailure(failure: Error)
    | UploadServiceFailure(code: string)
    | UploadSuccess(vid: string)

  /** What the publish-status call answered. */
  datatype PublishResponse =
    | PublishTransportFailure(failure: Error)
    | PublishServiceFailure(code: string)
    | PublishSuccess

  /**
   * `UploadMediaWithCallback`: the vid and no error on success; otherwise
   * an empty vid and either the transport error unchanged or an error whose
   * message is the service's error code.
   */
  function UploadMediaWithCallback(response: UploadResponse): (r: (string, Option<Error>))
    ensures r.1.None? <==> response.UploadSuccess?
    ensures r.1.None? ==> r.0 == response.vid
    ensures r.1.Some? ==> r.0 == ""
    ensures response.UploadTransportFailure? ==> r.1 == Some(response.failure)
    ensures response.UploadServiceFailure? ==> r.1 == Some(Error(response.code))
  {
    match response
    case UploadTransportFailure(failure) => ("", Some(failure))
    case UploadServiceFailure(code) => ("", Some(Error(code)))
    case UploadSuccess(vid) => (vid, None)
  }

  /**
   * `publishVideo`: published with no error exactly when neither tier failed;
   * a service failure becomes an error whose message is its code.
   */
  function PublishVideo(response: PublishResponse): (r: (bool, Option<Error>))
    ensures r.0 <==> r.1.None?
    ensures r.0 <==> response.PublishSuccess?
    ensures response.PublishTransportFailure? ==> r.1 == Some(response.failure)
    ensures response.PublishServiceFailure? ==> r.1 == Some(Error(response.code))
  {
    match response
    case PublishTransportFailure(failure) => (false, Some(failure))
    case PublishServiceFailure(code) => (false, Some(Error(code)))
    case PublishSuccess => (true, None)
  }
}
