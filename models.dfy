/** The values every layer of the user service exchanges. */
module Models {

  /** A value that may be absent; it stands for a reference the service
      returns as null. */
  datatype Option<+T> = None | Some(value: T)

  /** The user record of the API and of the storage gateway. Both shapes are
      the same: an integer key and a name. */
  datatype User = User(userId: int, userName: string)
}
