/** Optional values: Django's nullable fields (`null=True`), the optional
    requesting user, and the outcome of Python calls that may raise. */
module Optional {

  datatype Option<+T> = None | Some(value: T)
}
