/**
  The application state controller: the four state fields of the App component,
  the upload handler, the processing action split into its start and its two
  ways of settling, and the enablement of the controls rendered from that state.
  The remote call is not modelled; its outcome is the argument of the settle step.
 */
module Controller {
  import opened Wrappers
  import DataUrl

  const FailureMessage := "Failed to process the image. Please try again."
  const ProcessLabel := "Colorize & Enhance"
  const ProcessingLabel := "Processing..."

  /** The arguments the remote model is called with: the payload (undefined without a comma) and the MIME type. */
  datatype Request = Request(payload: Option<string>, mimeType: string)

  /** The request built from the original image's data URL. */
  function RequestFor(originalImage: string): (r: Request)
    ensures r.mimeType != ""
    ensures r.payload.None? <==> ',' !in originalImage
  {
    Request(DataUrl.Payload(originalImage), DataUrl.MimeType(originalImage))
  }

  /** Clicking after uploading `data:<m>;base64,<p>` sends payload `p` with MIME type `m`. */
  lemma RequestOfEncoded(m: string, p: string)
    requires m != "" && ',' !in m && forall k :: 0 <= k < |m| ==> !DataUrl.LineTerminator(m[k])
    requires ',' !in p
    ensures RequestFor(DataUrl.Encode(m, p)) == Request(Some(p), m)
  {
    DataUrl.ParseEncoded(m, p);
  }

  class App {
    var originalImage: Option<string>
    var generatedImage: Option<string>
    var isLoading: bool
    var error: Option<string>
    // The calls to the remote model that were started and have not settled yet.
    ghost var inFlight: nat

    /**
      The states reachable when processing is only started from the enabled
      trigger: at most one call in flight, loading exactly while it is, nothing
      shown from an earlier run while it is, and never both a result and an error.
     */
    ghost predicate Valid()
      reads this
    {
      && inFlight <= 1
      && (isLoading <==> inFlight == 1)
      && (inFlight == 1 ==> generatedImage == None && error == None)
      && (generatedImage.Some? ==> generatedImage.value != "" && error == None)
      && (error.Some? ==> error.value == FailureMessage)
    }

    constructor ()
      ensures originalImage == None && generatedImage == None && error == None
      ensures !isLoading && inFlight == 0
      ensures Valid()
    {
      originalImage := None;
      generatedImage := None;
      isLoading := false;
      error := None;
      inFlight := 0;
    }

    /** The process trigger is enabled: `disabled={!originalImage || isLoading}` is false. */
    predicate ProcessEnabled(): (enabled: bool)
      reads this
      ensures enabled <==> originalImage.Some? && originalImage.value != "" && !isLoading
    {
      !(!Truthy(originalImage) || isLoading)
    }

    /** The label of the process trigger. */
    function ProcessButtonLabel(): (caption: string)
      reads this
      ensures caption != ""
      ensures caption == ProcessingLabel <==> isLoading
      ensures !isLoading ==> caption == ProcessLabel
    {
      if isLoading then ProcessingLabel else ProcessLabel
    }

    /** The download link is rendered. */
    predicate DownloadOffered(): (offered: bool)
      reads this
      ensures offered <==> generatedImage.Some? && generatedImage.value != "" && !isLoading
    {
      Truthy(generatedImage) && !isLoading
    }

    /** The result pane shows the spinner. */
    predicate ShowsSpinner()
      reads this
    {
      isLoading
    }

    /** The result pane shows the placeholder text exactly when it shows neither the spinner nor an image. */
    predicate ShowsPlaceholder(): (shown: bool)
      reads this
      ensures shown <==> !ShowsSpinner() && !ShowsResult()
    {
      !isLoading && !Truthy(generatedImage)
    }

    /** The result pane shows the generated image. */
    predicate ShowsResult()
      reads this
    {
      Truthy(generatedImage)
    }

    /** The error banner is rendered. */
    predicate ShowsError()
      reads this
    {
      Truthy(error)
    }

    /**
      The uploader's `onloadend` hands over the read result, also while a call is
      in flight: the data URL, or null when the read failed or was aborted.
     */
    method Upload(imageDataUrl: Option<string>)
      modifies this
      ensures originalImage == imageDataUrl
      ensures generatedImage == None && error == None
      ensures isLoading == old(isLoading) && inFlight == old(inFlight)
      ensures old(Valid()) ==> Valid()
    {
      originalImage := imageDataUrl;
      generatedImage := None;
      error := None;
    }

    /**
      The synchronous part of `processImage`: nothing without an original image,
      otherwise loading starts, error and result are cleared, and the request for
      the remote model is built. There is no check of `isLoading` here.
     */
    method StartProcess() returns (request: Option<Request>)
      modifies this
      ensures !old(Truthy(originalImage)) ==> request == None && unchanged(this)
      ensures old(Truthy(originalImage)) ==>
        && request == Some(RequestFor(old(originalImage).value))
        && isLoading && error == None && generatedImage == None
        && originalImage == old(originalImage)
        && inFlight == old(inFlight) + 1
      ensures old(Valid()) && !old(isLoading) ==> Valid()
    {
      if !Truthy(originalImage) {
        return None;
      }
      isLoading := true;
      error := None;
      generatedImage := None;
      inFlight := inFlight + 1;
      request := Some(RequestFor(originalImage.value));
    }

    /** A click on the process trigger, which only reaches `processImage` while the trigger is enabled. */
    method Click() returns (request: Option<Request>)
      modifies this
      ensures !old(ProcessEnabled()) ==> request == None && unchanged(this)
      ensures old(ProcessEnabled()) ==>
        && request == Some(RequestFor(old(originalImage).value))
        && isLoading && error == None && generatedImage == None
        && originalImage == old(originalImage)
        && inFlight == old(inFlight) + 1
      ensures old(Valid()) ==> Valid()
    {
      if !ProcessEnabled() {
        return None;
      }
      request := StartProcess();
    }

    /** The remote call resolved with `result`: the result is shown as a JPEG data URL and loading ends. */
    method SettleSuccess(result: string)
      requires inFlight > 0
      modifies this
      ensures generatedImage == Some(DataUrl.Wrap(result)) && !isLoading
      ensures originalImage == old(originalImage) && error == old(error)
      ensures inFlight == old(inFlight) - 1
      ensures old(Valid()) ==> Valid() && error == None
    {
      generatedImage := Some(DataUrl.Wrap(result));
      isLoading := false;
      inFlight := inFlight - 1;
    }

    /** The remote call rejected: the fixed message is shown and loading ends. */
    method SettleFailure()
      requires inFlight > 0
      modifies this
      ensures error == Some(FailureMessage) && !isLoading
      ensures originalImage == old(originalImage) && generatedImage == old(generatedImage)
      ensures inFlight == old(inFlight) - 1
      ensures old(Valid()) ==> Valid() && generatedImage == None
    {
      error := Some(FailureMessage);
      isLoading := false;
      inFlight := inFlight - 1;
    }
  }

  /** In a valid state the result pane shows exactly one thing, and the controls agree with it. */
  lemma ViewIsConsistent(app: App)
    requires app.Valid()
    ensures app.ShowsSpinner() ==> !app.ShowsPlaceholder() && !app.ShowsResult()
    ensures app.ShowsSpinner() || app.ShowsPlaceholder() || app.ShowsResult()
    ensures app.DownloadOffered() <==> app.ShowsResult()
    ensures !(app.ShowsResult() && app.ShowsError())
    ensures app.ProcessButtonLabel() == ProcessingLabel <==> app.ShowsSpinner()
  {
  }

  /** In a valid state the trigger is enabled exactly when there is a non-empty original image and no call is in flight. */
  lemma ProcessEnabledWhenIdle(app: App)
    requires app.Valid()
    ensures app.ProcessEnabled() <==> app.originalImage.Some? && app.originalImage.value != "" && app.inFlight == 0
    ensures app.DownloadOffered() ==> app.inFlight == 0 && app.error == None
  {
  }

  /**
    Upload, process, and the remote model answers `result`: the result is shown
    as a JPEG data URL, nothing loads, no error, and the download link is offered.
   */
  method ProcessSucceeds(imageDataUrl: string, result: string)
    returns (generatedImage: Option<string>, isLoading: bool, error: Option<string>, downloadOffered: bool)
    requires imageDataUrl != ""
    ensures generatedImage == Some(DataUrl.Wrap(result))
    ensures !isLoading && error == None && downloadOffered
    ensures ',' !in result ==>
      && DataUrl.Payload(generatedImage.value) == Some(result)
      && DataUrl.MimeType(generatedImage.value) == DataUrl.DefaultMimeType
  {
    var app := new App();
    app.Upload(Some(imageDataUrl));
    var request := app.Click();
    app.SettleSuccess(result);
    generatedImage, isLoading, error := app.generatedImage, app.isLoading, app.error;
    downloadOffered := app.DownloadOffered();
    if ',' !in result {
      DataUrl.ParseWrapped(result);
    }
  }

  /** Upload, process, and the remote model fails: the fixed message, no result, nothing loads. */
  method ProcessFails(imageDataUrl: string)
    returns (generatedImage: Option<string>, isLoading: bool, error: Option<string>, enabledAgain: bool)
    requires imageDataUrl != ""
    ensures error == Some(FailureMessage) && generatedImage == None && !isLoading
    ensures enabledAgain
  {
    var app := new App();
    app.Upload(Some(imageDataUrl));
    var request := app.Click();
    app.SettleFailure();
    generatedImage, isLoading, error := app.generatedImage, app.isLoading, app.error;
    enabledAgain := app.ProcessEnabled();
  }

  /** Without an original image (none, or the empty string) processing changes nothing and calls nothing. */
  method ProcessWithoutImage(uploaded: Option<string>)
    returns (request: Option<Request>, isLoading: bool, generatedImage: Option<string>)
    requires !Truthy(uploaded)
    ensures request == None && !isLoading && generatedImage == None
  {
    var app := new App();
    app.Upload(uploaded);
    request := app.StartProcess();
    isLoading, generatedImage := app.isLoading, app.generatedImage;
  }

  /**
    A second upload while the call for the first is in flight keeps loading
    on, and the late answer for the first image is then shown beside the second.
   */
  method UploadDuringProcessing(first: string, second: string, result: string)
    returns (request: Option<Request>, loadingAfterUpload: bool, originalImage: Option<string>, generatedImage: Option<string>)
    requires first != ""
    ensures request == Some(RequestFor(first))
    ensures loadingAfterUpload
    ensures originalImage == Some(second) && generatedImage == Some(DataUrl.Wrap(result))
  {
    var app := new App();
    app.Upload(Some(first));
    request := app.Click();
    app.Upload(Some(second));
    loadingAfterUpload := app.isLoading;
    app.SettleSuccess(result);
    originalImage, generatedImage := app.originalImage, app.generatedImage;
  }

  /**
    `processImage` itself does not check `isLoading`: started twice (past the
    disabled trigger), a success and then a failure leave both a result and an
    error, and loading has ended while a second call was still open.
   */
  method DoubleSubmission(imageDataUrl: string, result: string)
    returns (loadingAfterFirstSettle: bool, generatedImage: Option<string>, error: Option<string>)
    requires imageDataUrl != ""
    ensures !loadingAfterFirstSettle
    ensures generatedImage == Some(DataUrl.Wrap(result)) && error == Some(FailureMessage)
  {
    var app := new App();
    app.Upload(Some(imageDataUrl));
    var first := app.StartProcess();
    var second := app.StartProcess();
    app.SettleSuccess(result);
    loadingAfterFirstSettle := app.isLoading;
    app.SettleFailure();
    generatedImage, error := app.generatedImage, app.error;
  }

  /**
    A read that fails while a call is in flight uploads null: the original is
    cleared, loading stays on, and the trigger stays disabled after the answer.
   */
  method FailedReadDuringProcessing(imageDataUrl: string, result: string)
    returns (originalImage: Option<string>, loadingAfterUpload: bool, enabledAfterSettle: bool)
    requires imageDataUrl != ""
    ensures originalImage == None && loadingAfterUpload && !enabledAfterSettle
  {
    var app := new App();
    app.Upload(Some(imageDataUrl));
    var request := app.Click();
    app.Upload(None);
    loadingAfterUpload := app.isLoading;
    app.SettleSuccess(result);
    originalImage := app.originalImage;
    enabledAfterSettle := app.ProcessEnabled();
  }
}
