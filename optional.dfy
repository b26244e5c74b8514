/** An optional value: the model of a TypeScript optional field (`x?: T`),
    of a lookup that may be `undefined`, and of `parseInt` returning NaN. */
module Optional {

  datatype Option<+T> = None | Some(value: T)
}
