/**
 * The external text-generation call (`model.generateContent(prompt)` and
 * `response.text()`), seen only through its outcome: the returned text,
 * or a failure (a rejected promise or a thrown error).
 */
module Generation {

  datatype Reply = Generated(text: string) | Failed
}
