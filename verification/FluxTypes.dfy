/** `FluxType`: a unit type. Java compares flux types by reference; the model
    gives each type object a distinct `ref` next to its `getID()` string, so
    value equality of `FluxType` is reference identity. */
module FluxTypes {

  datatype FluxType = FluxType(ref: nat, id: string)
}
