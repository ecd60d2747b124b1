/** An optional value: stands for a nullable pointer result (a found page or slot, or none). */
module Optional {

  datatype Option<+T> = None | Some(value: T)

}
