/** An optional value: `None` stands for an absent request parameter or a
    search that found nothing. */
module Optional {

  datatype Option<+T> = None | Some(value: T)
}
