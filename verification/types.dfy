/** Record shapes shared by the photo-browser core (src/types/index.ts). */
module Types {

  /** A value that may be absent: the model of `T | undefined` / `T | null`. */
  datatype Option<+T> = None | Some(value: T)

  /** An opaque file handle; the core never looks inside it. */
  type Handle = nat

  /** One image found by the directory scan. */
  datatype ImageFile = ImageFile(
    id: string,
    name: string,
    path: string,
    size: int,
    lastModified: int,
    handle: Handle,
    folderPath: string
  )
}
