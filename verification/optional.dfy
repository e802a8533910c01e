/** The result of a collaborator call that may fail without raising:
    a frame read (`cap.read()`), a JPEG encode (`cv2.imencode`), an
    integer parse or a Python list subscript. */
module Optional {

  datatype Option<+T> = None | Some(value: T)

}
