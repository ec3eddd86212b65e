/** The gallery's record type (types.ts) and its seed list (constants.ts). */
module Projects {
  /** One stored memory: an opaque id, the visitor's text and the image as a URL. */
  datatype MarsProject = MarsProject(id: string, description: string, imageUrl: string)

  /** The list the gallery falls back to when nothing usable is stored: it is empty. */
  const MarsProjects: seq<MarsProject> := []
}
