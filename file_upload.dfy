/**
 * The state of the upload view: the chosen file, the outcome of the last
 * analysis, and whether a file has been chosen since that analysis (which is
 * what shows the submit button).
 */
module Upload {
  import opened PixelHeuristic

  datatype Option<T> = None | Some(value: T)

  /** A file picked in the browser's file dialog; only its identity matters here. */
  datatype File = File(name: string)

  class FileUpload {
    var file: Option<File>
    /** The last analysis's verdict; its message is `result.value.Text()`. */
    var result: Option<Verdict>
    var uploaded: bool

    /** The submit button is rendered exactly when a file has been chosen and not yet analysed. */
    predicate ShowsSubmit()
      reads this
    {
      uploaded
    }

    /** The message the result paragraph displays, if any. */
    function Displayed(): (shown: Option<string>)
      reads this
    {
      if result.Some? then Some(result.value.Text()) else None
    }

    /** The view starts with no file, no result and no submit button. */
    constructor ()
      ensures file == None && result == None && !uploaded
      ensures !ShowsSubmit() && Displayed() == None
    {
      file, result, uploaded := None, None, false;
    }

    /**
     * A change event of the file input: the first selected file is stored (no
     * file at all when the dialog hands back an empty list) and the submit
     * button appears either way.
     */
    method HandleFileChange(selected: Option<File>)
      modifies this
      ensures file == selected && uploaded && result == old(result)
      ensures ShowsSubmit()
    {
      file := selected;
      uploaded := true;
    }

    /**
     * Submitting, with the reading and decoding of the file collapsed into
     * one step: `decoded` is the canvas the chosen file was drawn onto, or
     * None when the file never loads as an image (no load callback runs).
     * Without a file, without a loaded image, or when the analysis throws,
     * nothing changes; otherwise the analysis's verdict is stored, the submit
     * button disappears and the file stays chosen.
     */
    method HandleSubmit(decoded: Option<Canvas>)
      requires decoded.Some? ==> WellFormed(decoded.value)
      modifies this
      ensures file == old(file)
      ensures old(file).None? || decoded.None? || Expected(decoded.value).Throws? ==>
                result == old(result) && uploaded == old(uploaded)
      ensures old(file).Some? && decoded.Some? && Expected(decoded.value).Returns? ==>
                result == Some(Expected(decoded.value).verdict) && !uploaded &&
                Displayed() == Some(Expected(decoded.value).verdict.Text()) && !ShowsSubmit()
    {
      if file.Some? && decoded.Some? {
        var completion := Analyze(decoded.value);
        if completion.Returns? {
          result := Some(completion.verdict);
          uploaded := false;
        }
      }
    }
  }

  /**
   * A session: submitting too early does nothing, an image that never loads
   * leaves the submit button up, and a loaded image of non-zero area shows
   * its verdict.
   */
  method UploadSession(f: File, image: Canvas)
    requires WellFormed(image) && !ZeroArea(image)
  {
    var view := new FileUpload();
    view.HandleSubmit(Some(image));
    assert view.result == None && !view.ShowsSubmit();
    view.HandleFileChange(Some(f));
    assert view.ShowsSubmit() && view.result == None;
    view.HandleSubmit(None);
    assert view.ShowsSubmit() && view.result == None;
    view.HandleSubmit(Some(image));
    assert view.file == Some(f) && !view.ShowsSubmit();
    assert view.result.Some? && view.result == Some(Expected(image).verdict);
  }
}
