/** The optional value used wherever the bot gets `undefined` or `null` back
 *  from a lookup. */
module Optional {

  datatype Option<+T> = None | Some(value: T)
}
