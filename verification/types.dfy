/** The dashboard's entities (lib/types.ts). Optional TypeScript fields become `Option`. */
module Types {

  /** A value that may be missing: TypeScript's `field?: T` or `T | undefined`. */
  datatype Option<+T> = None | Some(value: T) {

    /** The value, or `default` when it is missing. */
    function GetOr(default: T): T {
      match this
      case Some(v) => v
      case None => default
    }
  }

  /** The four resource kinds a `Resource.type` may take. */
  datatype ResourceType = Article | Video | Book | Other

  /** A link attached to a course. The TypeScript field `type` is called `kind` here,
      because `type` is a Dafny keyword. */
  datatype Resource = Resource(
    id: string,
    title: string,
    url: string,
    kind: ResourceType,
    createdAt: Option<int>)

  /** A tracked course. `progress` is an unvalidated number (the store does not clamp it). */
  datatype Course = Course(
    id: string,
    title: string,
    description: string,
    category: string,
    platform: string,
    instructor: string,
    dueDate: string,
    url: string,
    progress: int,
    resources: seq<Resource>,
    createdAt: int)
}
