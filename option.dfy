/** The value of a floating-point pipeline, or the absence of one: None stands for a
    step whose numpy evaluation yields NaN or raises (division by zero, log of a
    negative number, the maximum of an empty array). */
module Maybe {

  datatype Option<+T> = None | Some(value: T)

}
