/** The optional value returned by `Arena::get`, `Relation::rel`, `Relation::inv`
    and `Rope::re_range`. */
module Options {
  datatype Option<+T> = None | Some(value: T)
}
