/** The page state of App.tsx: the project list and its persistence, the selection and the
  * overlay, the upload modal, and the mute toggle. */
module Application {
  import opened Wrappers
  import opened Projects
  import opened Upload

  /** The one storage key the list is kept under. */
  const StorageKey: string := "mars_memories_2025"

  /** `JSON.stringify` and `JSON.parse` for project lists, left abstract: `decode` fails
    * (`None`) where `JSON.parse` throws. */
  datatype Codec = Codec(encode: seq<MarsProject> -> string, decode: string -> Option<seq<MarsProject>>)

  /** What the save–load round trip relies on: decoding an encoding gives the list back, and
    * an encoding is never the empty string (JSON text for an array never is). */
  ghost predicate Faithful(codec: Codec) {
    forall ps :: codec.decode(codec.encode(ps)) == Some(ps) && codec.encode(ps) != ""
  }

  /** The list the load effect installs: the stored list, or `MarsProjects` when no entry is
    * stored, the entry is empty (`if (saved)` treats "" as absent) or it does not parse. */
  function Loaded(storage: map<string, string>, codec: Codec): (ps: seq<MarsProject>)
    ensures ps != MarsProjects ==>
              StorageKey in storage && storage[StorageKey] != "" && codec.decode(storage[StorageKey]) == Some(ps)
  {
    if StorageKey !in storage || storage[StorageKey] == "" then MarsProjects
    else match codec.decode(storage[StorageKey])
      case None => MarsProjects
      case Some(parsed) => parsed
  }

  /** Storage after the save effect: only a non-empty list is written, only under the key. */
  function Saved(storage: map<string, string>, projects: seq<MarsProject>, codec: Codec): (st: map<string, string>)
    ensures |projects| == 0 ==> st == storage
    ensures |projects| > 0 ==> StorageKey in st && st[StorageKey] == codec.encode(projects)
    ensures forall k :: k != StorageKey ==> (k in st <==> k in storage)
    ensures forall k :: k != StorageKey && k in st ==> st[k] == storage[k]
  {
    if |projects| > 0 then storage[StorageKey := codec.encode(projects)] else storage
  }

  /** Saving a non-empty list and loading again gives the same list. */
  lemma SaveThenLoad(storage: map<string, string>, projects: seq<MarsProject>, codec: Codec)
    requires Faithful(codec)
    requires |projects| > 0
    ensures Loaded(Saved(storage, projects, codec), codec) == projects
  {
    var st := Saved(storage, projects, codec);
    assert codec.decode(codec.encode(projects)) == Some(projects) && codec.encode(projects) != "";
    assert st[StorageKey] == codec.encode(projects);
  }

  /** Every case of the load effect: fallback without an entry or on a parse failure,
    * the parsed list otherwise. */
  lemma LoadCases(storage: map<string, string>, codec: Codec)
    ensures StorageKey !in storage ==> Loaded(storage, codec) == MarsProjects
    ensures StorageKey in storage && codec.decode(storage[StorageKey]).None? ==> Loaded(storage, codec) == MarsProjects
    ensures StorageKey in storage && storage[StorageKey] != "" && codec.decode(storage[StorageKey]).Some? ==>
              Loaded(storage, codec) == codec.decode(storage[StorageKey]).value
  {
  }

  /** `[...prev, newProject]`: one longer, the earlier entries untouched, the new one last. */
  function Appended(prev: seq<MarsProject>, p: MarsProject): (r: seq<MarsProject>)
    ensures |r| == |prev| + 1
    ensures r[..|prev|] == prev
    ensures r[|prev|] == p
  {
    prev + [p]
  }

  /** The uploads among a modal's callbacks, in order. */
  function Uploads(calls: seq<Callback>): seq<MarsProject>
  {
    if calls == [] then []
    else
      var last := calls[|calls| - 1];
      Uploads(calls[..|calls| - 1]) + (if last.OnUpload? then [last.project] else [])
  }

  class App {
    var projects: seq<MarsProject>
    var selectedProject: Option<MarsProject>
    var isUploadOpen: bool
    var isMuted: bool
    /** Whether `audioRef.current` holds an audio element. */
    var hasAudio: bool
    /** `localStorage`. */
    var storage: map<string, string>

    constructor (storage0: map<string, string>)
      ensures projects == [] && selectedProject == None && !isUploadOpen && !isMuted && !hasAudio
      ensures storage == storage0
    {
      projects := [];
      selectedProject := None;
      isUploadOpen := false;
      isMuted := false;
      hasAudio := false;
      storage := storage0;
    }

    /** Whether the centred "ADD Your Memory" button is rendered. */
    predicate AddButtonVisible()
      reads this
    {
      selectedProject == None && !isUploadOpen
    }

    /** The load effect on mount. */
    method Load(codec: Codec)
      modifies this
      ensures projects == Loaded(storage, codec)
      ensures storage == old(storage) && selectedProject == old(selectedProject)
      ensures isUploadOpen == old(isUploadOpen) && isMuted == old(isMuted) && hasAudio == old(hasAudio)
    {
      if StorageKey in storage && storage[StorageKey] != "" {
        var parsed := codec.decode(storage[StorageKey]);
        if parsed.Some? {
          projects := parsed.value;
        } else {
          projects := MarsProjects;
        }
      } else {
        projects := MarsProjects;
      }
    }

    /** The save effect, run whenever `projects` changes. */
    method Save(codec: Codec)
      modifies this
      ensures storage == Saved(old(storage), projects, codec)
      ensures projects == old(projects) && selectedProject == old(selectedProject)
      ensures isUploadOpen == old(isUploadOpen) && isMuted == old(isMuted) && hasAudio == old(hasAudio)
    {
      if |projects| > 0 {
        storage := storage[StorageKey := codec.encode(projects)];
      }
    }

    /** `handleUploadProject`. */
    method UploadProject(p: MarsProject)
      modifies this
      ensures projects == Appended(old(projects), p)
      ensures storage == old(storage) && selectedProject == old(selectedProject)
      ensures isUploadOpen == old(isUploadOpen) && isMuted == old(isMuted) && hasAudio == old(hasAudio)
    {
      projects := projects + [p];
    }

    /** `handleProjectSelect`: the overlay opens and the add button disappears. */
    method SelectProject(p: MarsProject)
      modifies this
      ensures selectedProject == Some(p) && !AddButtonVisible()
      ensures projects == old(projects) && storage == old(storage)
      ensures isUploadOpen == old(isUploadOpen) && isMuted == old(isMuted) && hasAudio == old(hasAudio)
    {
      selectedProject := Some(p);
    }

    /** The overlay's `onClose`: the add button is back unless the modal is open. */
    method CloseOverlay()
      modifies this
      ensures selectedProject == None && (AddButtonVisible() <==> !isUploadOpen)
      ensures projects == old(projects) && storage == old(storage)
      ensures isUploadOpen == old(isUploadOpen) && isMuted == old(isMuted) && hasAudio == old(hasAudio)
    {
      selectedProject := None;
    }

    /** The add button's `onClick`. */
    method OpenUpload()
      modifies this
      ensures isUploadOpen && !AddButtonVisible()
      ensures projects == old(projects) && storage == old(storage) && selectedProject == old(selectedProject)
      ensures isMuted == old(isMuted) && hasAudio == old(hasAudio)
    {
      isUploadOpen := true;
    }

    /** The modal's `onClose`. */
    method CloseUpload()
      modifies this
      ensures !isUploadOpen && (AddButtonVisible() <==> selectedProject == None)
      ensures projects == old(projects) && storage == old(storage) && selectedProject == old(selectedProject)
      ensures isMuted == old(isMuted) && hasAudio == old(hasAudio)
    {
      isUploadOpen := false;
    }

    /** The modal's calls, delivered in order to `handleUploadProject` and `onClose`. */
    method HandleModal(calls: seq<Callback>)
      modifies this
      ensures projects == old(projects) + Uploads(calls)
      ensures isUploadOpen == (old(isUploadOpen) && OnClose !in calls)
      ensures storage == old(storage) && selectedProject == old(selectedProject)
      ensures isMuted == old(isMuted) && hasAudio == old(hasAudio)
    {
      var i := 0;
      while i < |calls|
        invariant 0 <= i <= |calls|
        invariant projects == old(projects) + Uploads(calls[..i])
        invariant isUploadOpen == (old(isUploadOpen) && OnClose !in calls[..i])
        invariant storage == old(storage) && selectedProject == old(selectedProject)
        invariant isMuted == old(isMuted) && hasAudio == old(hasAudio)
      {
        UploadsSnoc(calls[..i], calls[i]);
        assert calls[..i + 1] == calls[..i] + [calls[i]];
        match calls[i] {
          case OnUpload(p) => UploadProject(p);
          case OnClose => CloseUpload();
        }
        i := i + 1;
      }
      assert calls[..i] == calls;
    }

    /** The audio effect on mount creates the audio element. */
    method MountAudio()
      modifies this
      ensures hasAudio
      ensures projects == old(projects) && storage == old(storage) && selectedProject == old(selectedProject)
      ensures isUploadOpen == old(isUploadOpen) && isMuted == old(isMuted)
    {
      hasAudio := true;
    }

    /** `toggleMute`: nothing without an audio element, otherwise the flag flips. */
    method ToggleMute()
      modifies this
      ensures isMuted == if hasAudio then !old(isMuted) else old(isMuted)
      ensures projects == old(projects) && storage == old(storage) && selectedProject == old(selectedProject)
      ensures isUploadOpen == old(isUploadOpen) && hasAudio == old(hasAudio)
    {
      if !hasAudio {
        return;
      }
      if isMuted {
        isMuted := false;
      } else {
        isMuted := true;
      }
    }
  }

  lemma UploadsSnoc(calls: seq<Callback>, c: Callback)
    ensures Uploads(calls + [c]) == Uploads(calls) + (if c.OnUpload? then [c.project] else [])
  {
    assert (calls + [c])[..|calls|] == calls;
  }

  /** A valid submission from a fresh modal, delivered to the page, appends exactly the new
    * record and closes the modal; a rejected one changes nothing, and a failed read of the
    * chosen file keeps the button disabled. */
  method UploadScenario(codec: Codec, now: nat)
  {
    var app := new App(map[]);
    app.OpenUpload();
    var modal := new UploadModal();
    var rejected := modal.Submit(now);
    assert rejected == [];
    modal.ChangeDescription("A");
    modal.ImageChange(["photo.png"], None);
    assert modal.SubmitDisabled();
    modal.ImageChange(["photo.png"], Some("data:u1"));
    var calls := modal.Submit(now);
    assert Uploads(calls) == [calls[0].project] by {
      UploadsSnoc([], calls[0]);
      UploadsSnoc([calls[0]], calls[1]);
      assert [] + [calls[0]] == [calls[0]] && calls == [calls[0]] + [calls[1]];
    }
    app.HandleModal(calls);
    assert |app.projects| == 1 && app.projects[0].description == "A";
    assert !app.isUploadOpen && app.AddButtonVisible();
    app.Save(codec);
    assert app.storage[StorageKey] == codec.encode(app.projects);
  }
}
