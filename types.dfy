/** The record and the phase enumeration shared by the application (types.ts). */
module Types {
  import opened Wrappers

  /** The transformation state the page keeps: the uploaded image, the edited
      image returned by the service, whether a request is in flight, and the
      last error message. Images are data-URL strings. */
  datatype TransformationState = TransformationState(
    originalImage: Option<string>,
    editedImage: Option<string>,
    isProcessing: bool,
    error: Option<string>)

  /** The three phases of the page. */
  datatype ViewMode = Upload | Preview | Result
}
