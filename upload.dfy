/** The upload form of components/UploadModal.tsx: its two state fields, the image-change
  * handler, the submit guard and the record a valid submission builds. */
module Upload {
  import opened Wrappers
  import opened Projects
  import Decimal

  /** A call the form makes to its host: `onUpload(project)` or `onClose()`. */
  datatype Callback = OnUpload(project: MarsProject) | OnClose

  class UploadModal {
    var description: string
    /** The selected image as a data URL, `None` while no image has been read. */
    var previewUrl: Option<string>

    constructor ()
      ensures description == "" && previewUrl == None
    {
      description := "";
      previewUrl := None;
    }

    /** The text area's `onChange`. */
    method ChangeDescription(text: string)
      modifies this
      ensures description == text && previewUrl == old(previewUrl)
    {
      description := text;
    }

    /** `handleImageChange` together with its read's `onloadend`. `result` is what the
      * `FileReader` holds when the read ends: the data URL of the first chosen file, or
      * `None` (`null`) when the read failed or was aborted. With a file chosen the preview
      * becomes that result, so a failed read clears it; no file leaves it as it was. */
    method ImageChange(files: seq<string>, result: Option<string>)
      modifies this
      ensures previewUrl == if |files| > 0 then result else old(previewUrl)
      ensures description == old(description)
    {
      if |files| > 0 {
        previewUrl := result;
      }
    }

    /** The submit button's `disabled`: no text, or no (or an empty) image. */
    predicate SubmitDisabled()
      reads this
    {
      description == "" || previewUrl == None || previewUrl == Some("")
    }

    /** `handleSubmit` at time `now` (milliseconds): the host calls it makes, in order.
      * A rejected submission makes none; an accepted one uploads a record holding the
      * current text and image under the timestamp's decimal id, exactly once, then closes. */
    method Submit(now: nat) returns (calls: seq<Callback>)
      ensures calls == [] <==> SubmitDisabled()
      ensures !SubmitDisabled() ==>
                && |calls| == 2 && calls[1] == OnClose && calls[0].OnUpload?
                && calls[0].project.description == description
                && Some(calls[0].project.imageUrl) == previewUrl
                && calls[0].project.id == Decimal.Show(now)
                && Decimal.AllDigits(calls[0].project.id)
                && Decimal.Parse(calls[0].project.id) == now
    {
      if description == "" || previewUrl == None || previewUrl.value == "" {
        return [];
      }
      var newProject := MarsProject(Decimal.Show(now), description, previewUrl.value);
      Decimal.ParseShow(now);
      calls := [OnUpload(newProject), OnClose];
    }
  }
}
