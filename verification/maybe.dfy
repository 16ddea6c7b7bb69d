/** An optional value: `None` marks a finite input trace that ended before the routine did. */
module Maybe {

  datatype Option<+T> = None | Some(value: T)
}
